/** `NewsController`: the requests it sends to NewsAPI and what it makes of the answers.
    A request is the endpoint and its query parameters in the order the URL lists them;
    the HTTP exchange itself is an input. */
module News {
  import opened Wrappers
  import opened Seqs
  import opened Text
  import opened Sorting
  import opened Limits

  const Everything := "https://newsapi.org/v2/everything"
  const TopHeadlines := "https://newsapi.org/v2/top-headlines"

  /** The key the configuration ships with until a real one is filled in. */
  const Placeholder := "YOUR_NEWS_API_KEY_HERE"

  /** The UI languages NewsAPI accepts as a `language` filter. */
  const NewsLanguages: seq<string> := ["ar", "de", "en", "es", "fr", "he", "it", "nl", "no", "pt", "ru", "se", "ud", "zh"]

  /** The topics top-headlines knows as categories. */
  const Categories: seq<string> := ["business", "entertainment", "general", "health", "science", "sports", "technology"]

  datatype Param = Param(name: string, value: string)

  datatype Request = Request(endpoint: string, params: seq<Param>)

  /** The value of the first parameter called `name`. */
  function Lookup(params: seq<Param>, name: string): (r: Option<string>)
    ensures r.Some? <==> exists i :: 0 <= i < |params| && params[i].name == name
    ensures r.Some? ==> Param(name, r.value) in params
    decreases |params|
  {
    if |params| == 0 then None
    else if params[0].name == name then Some(params[0].value)
    else
      assert forall i :: 1 <= i < |params| ==> params[i] == params[1..][i - 1];
      Lookup(params[1..], name)
  }

  lemma {:induction false} LookupConcat(a: seq<Param>, b: seq<Param>, name: string)
    ensures Lookup(a + b, name) == if Lookup(a, name).Some? then Lookup(a, name) else Lookup(b, name)
    decreases |a|
  {
    if |a| > 0 {
      assert (a + b)[1..] == a[1..] + b;
      LookupConcat(a[1..], b, name);
    } else {
      assert a + b == b;
    }
  }

  /** A parameter no earlier parameter shares a name with is the one a lookup finds. */
  lemma {:induction false} LookupAt(params: seq<Param>, i: nat)
    requires i < |params|
    requires forall k :: 0 <= k < i ==> params[k].name != params[i].name
    ensures Lookup(params, params[i].name) == Some(params[i].value)
    decreases i
  {
    if i > 0 {
      assert params[1..][i - 1] == params[i];
      LookupAt(params[1..], i - 1);
    }
  }

  /** Four parameters ahead of any others. */
  function Four(n0: string, v0: string, n1: string, v1: string, n2: string, v2: string,
                n3: string, v3: string, tail: seq<Param>): seq<Param> {
    [Param(n0, v0)] + ([Param(n1, v1)] + ([Param(n2, v2)] + ([Param(n3, v3)] + tail)))
  }

  /** Four differently named parameters ahead of any others are the ones a lookup of
      their names finds; every other name is looked up in what follows them. */
  lemma HeadOfFour(n0: string, v0: string, n1: string, v1: string, n2: string, v2: string,
                   n3: string, v3: string, tail: seq<Param>, name: string)
    requires n0 != n1 && n0 != n2 && n0 != n3 && n1 != n2 && n1 != n3 && n2 != n3
    ensures var all := Four(n0, v0, n1, v1, n2, v2, n3, v3, tail);
      Lookup(all, n0) == Some(v0) && Lookup(all, n1) == Some(v1)
      && Lookup(all, n2) == Some(v2) && Lookup(all, n3) == Some(v3)
    ensures name != n0 && name != n1 && name != n2 && name != n3 ==>
      Lookup(Four(n0, v0, n1, v1, n2, v2, n3, v3, tail), name) == Lookup(tail, name)
  {
    var t3 := [Param(n3, v3)] + tail;
    var t2 := [Param(n2, v2)] + t3;
    var t1 := [Param(n1, v1)] + t2;
    LookupCons(Param(n3, v3), tail, n3);
    LookupCons(Param(n2, v2), t3, n3);
    LookupCons(Param(n1, v1), t2, n3);
    LookupCons(Param(n0, v0), t1, n3);
    LookupCons(Param(n2, v2), t3, n2);
    LookupCons(Param(n1, v1), t2, n2);
    LookupCons(Param(n0, v0), t1, n2);
    LookupCons(Param(n1, v1), t2, n1);
    LookupCons(Param(n0, v0), t1, n1);
    LookupCons(Param(n0, v0), t1, n0);
    LookupCons(Param(n3, v3), tail, name);
    LookupCons(Param(n2, v2), t3, name);
    LookupCons(Param(n1, v1), t2, name);
    LookupCons(Param(n0, v0), t1, name);
  }

  lemma LookupCons(p: Param, rest: seq<Param>, name: string)
    ensures Lookup([p] + rest, name) == if p.name == name then Some(p.value) else Lookup(rest, name)
  {
    assert ([p] + rest)[1..] == rest;
  }

  /** The key from `NewsApi:ApiKey`, else from `NewsApiSettings:ApiKey`, else empty; only
      a missing setting falls through, an empty one is kept. */
  function ConfiguredKey(primary: Option<string>, legacy: Option<string>): (r: string)
    ensures primary.Some? ==> r == primary.value
    ensures primary.None? ==> r == legacy.GetOr("")
  {
    match primary
    case Some(k) => k
    case None => legacy.GetOr("")
  }

  /** The key check of `GetNews`, `GetEverything` and `GetCityNews`. */
  predicate UsableKey(apiKey: string) {
    apiKey != "" && apiKey != Placeholder
  }

  /** `language=<ui language>` when NewsAPI supports the UI language, else nothing. */
  function LanguageParam(uiLang: string): (r: seq<Param>)
    ensures Lookup(r, "language").Some? <==> uiLang in NewsLanguages
    ensures Lookup(r, "language").Some? ==> Lookup(r, "language").value == uiLang
    ensures forall i :: 0 <= i < |r| ==> r[i].name == "language"
  {
    if uiLang in NewsLanguages then [Param("language", uiLang)] else []
  }

  // ---------------------------------------------------------------- GetGlobalNews

  /** The search keyword: "latest" for a missing or blank keyword, else the keyword
      trimmed. */
  function GlobalQuery(q: string): (r: string)
    ensures IsBlank(q) ==> r == "latest"
    ensures !IsBlank(q) ==> r == Trim(q)
    ensures |r| > 0 && !IsWhiteSpace(r[0]) && !IsWhiteSpace(r[|r| - 1])
  {
    if IsBlank(q) then "latest" else Trim(q)
  }

  /** The keyword the controller sends is already settled: sending it again sends the
      same keyword. */
  lemma GlobalQueryIsSettled(q: string)
    ensures GlobalQuery(GlobalQuery(q)) == GlobalQuery(q)
  {
    var r := GlobalQuery(q);
    assert !IsBlank(r) by {
      assert !IsWhiteSpace(r[0]);
    }
    TrimUntrimmed(r);
  }

  /** `GetGlobalNews`' request: refused only for a missing key (the placeholder key is
      sent as it is); otherwise everything, newest first, 20 to a page. */
  function GlobalNewsRequest(apiKey: string, q: string): (r: Result<Request>)
    ensures r.Err? <==> apiKey == ""
    ensures r.Err? ==> r.message == "News API Key is missing in configuration."
    ensures r.Ok? ==> (r.value.endpoint == Everything
      && Lookup(r.value.params, "q") == Some(GlobalQuery(q))
      && Lookup(r.value.params, "sortBy") == Some("publishedAt")
      && Lookup(r.value.params, "pageSize") == Some("20")
      && Lookup(r.value.params, "apiKey") == Some(apiKey))
  {
    if apiKey == "" then Err("News API Key is missing in configuration.")
    else
      Ok(Request(Everything, GlobalParams(GlobalQuery(q), apiKey)))
  }

  function GlobalParams(query: string, apiKey: string): (r: seq<Param>)
    ensures Lookup(r, "q") == Some(query) && Lookup(r, "sortBy") == Some("publishedAt")
    ensures Lookup(r, "pageSize") == Some("20") && Lookup(r, "apiKey") == Some(apiKey)
  {
    var r := Four("q", query, "sortBy", "publishedAt", "pageSize", "20", "apiKey", apiKey, []);
    HeadOfFour("q", query, "sortBy", "publishedAt", "pageSize", "20", "apiKey", apiKey, [], "q");
    r
  }

  /** An article as NewsAPI returns it; everything but its title and publication time is
      passed through untouched, so only those two are modelled (`None` when absent or
      null). */
  datatype Article = Article(title: Option<string>, publishedAt: Option<string>)

  /** The article filter: a non-empty title other than "[Removed]" and a non-empty
      publication time. */
  predicate Listable(a: Article) {
    a.title.Some? && a.title.value != "" && a.title.value != "[Removed]"
    && a.publishedAt.Some? && a.publishedAt.value != ""
  }

  function IsListable(): Article -> bool {
    (a: Article) => Listable(a)
  }

  /** The sort key: the publication time under the string comparer's collation. */
  function ByPublished(collate: string -> Key): Article -> Key {
    (a: Article) => collate(a.publishedAt.GetOr(""))
  }

  const PageSize := 20

  /** The listable articles, newest first (a stable sort), at most 20 of them. */
  function LatestArticles(articles: seq<Article>, collate: string -> Key): (r: seq<Article>)
    ensures |r| <= PageSize
    ensures forall i :: 0 <= i < |r| ==> Listable(r[i]) && r[i] in articles
    ensures Sorted(r, ByPublished(collate), Descending)
    ensures |Filter(articles, IsListable())| <= PageSize ==> multiset(r) == multiset(Filter(articles, IsListable()))
    ensures |Filter(articles, IsListable())| >= PageSize ==> |r| == PageSize
  {
    var kept := Filter(articles, IsListable());
    var sorted := SortBy(kept, ByPublished(collate), Descending);
    SortBySameElements(kept, ByPublished(collate), Descending);
    if |sorted| <= PageSize then sorted else sorted[..PageSize]
  }

  /** Nothing newer is cut off: an article that passes the filter but is not on the page
      is no newer than any article on it. */
  lemma LatestArticlesAreTheNewest(articles: seq<Article>, collate: string -> Key, x: Article)
    requires x in articles && Listable(x)
    requires x !in LatestArticles(articles, collate)
    ensures var r := LatestArticles(articles, collate);
      |r| == PageSize && forall i :: 0 <= i < |r| ==> KeyLe(ByPublished(collate)(x), ByPublished(collate)(r[i]))
  {
    var kept := Filter(articles, IsListable());
    var sorted := SortBy(kept, ByPublished(collate), Descending);
    SortBySameElements(kept, ByPublished(collate), Descending);
    assert x in kept;
    assert x in sorted;
    var j :| 0 <= j < |sorted| && sorted[j] == x;
    var r := LatestArticles(articles, collate);
    if |sorted| > PageSize {
      assert r == sorted[..PageSize];
      forall i | 0 <= i < |r|
        ensures KeyLe(ByPublished(collate)(x), ByPublished(collate)(r[i]))
      {
        assert r[i] == sorted[i];
        assert InOrder(Descending, ByPublished(collate)(sorted[i]), ByPublished(collate)(sorted[j]));
      }
    }
  }

  /** A parsed NewsAPI body: its `status`, `message` and `articles` properties. */
  datatype Payload = Payload(status: Option<string>, message: Option<string>, articles: Option<seq<Article>>)

  datatype Body = Parsed(payload: Payload) | Unparsable(error: string)

  /** What the HTTP call gave: a response with its status line and body, an
      `HttpRequestException` (the network failed) with its message, or any other exception
      thrown by the call, such as the cancellation a timeout raises, with its message. */
  datatype Exchange =
    | Answered(success: bool, statusCode: string, body: Body)
    | NetworkFailure(error: string)
    | OtherFailure(error: string)

  /** `GetGlobalNews`' answer to the browser: the page of articles, or the error message. */
  function GlobalNewsReply(x: Exchange, collate: string -> Key): (r: Result<seq<Article>>)
    ensures r.Ok? <==> (x.Answered? && x.success && x.body.Parsed?
      && x.body.payload.status != Some("error") && x.body.payload.articles.Some?)
    ensures r.Ok? ==> r.value == LatestArticles(x.body.payload.articles.value, collate)
    ensures x.NetworkFailure? ==> r == Err("Network Error: " + x.error + ". Check your connection.")
    ensures x.OtherFailure? ==> r == Err("System Error: " + x.error)
    ensures x.Answered? && x.success && x.body.Unparsable? ==> r == Err("System Error: " + x.body.error)
    ensures x.Answered? && !x.success && x.body.Parsed? && x.body.payload.message.Some? ==>
      r == Err("NewsAPI Error: " + x.body.payload.message.value)
    ensures x.Answered? && !x.success && !(x.body.Parsed? && x.body.payload.message.Some?) ==>
      r == Err("HTTP Error: " + x.statusCode + ". Unable to fetch news.")
    ensures x.Answered? && x.success && x.body.Parsed? && x.body.payload.status == Some("error") ==>
      r == Err(x.body.payload.message.GetOr("Unknown NewsAPI error"))
    ensures x.Answered? && x.success && x.body.Parsed? ==>
      (x.body.payload.status != Some("error") && x.body.payload.articles.None? ==>
         r == Err("No articles found in the response."))
  {
    match x
    case NetworkFailure(e) => Err("Network Error: " + e + ". Check your connection.")
    case OtherFailure(e) => Err("System Error: " + e)
    case Answered(success, code, body) =>
      if !success then
        if body.Parsed? && body.payload.message.Some? then Err("NewsAPI Error: " + body.payload.message.value)
        else Err("HTTP Error: " + code + ". Unable to fetch news.")
      else
        match body
        case Unparsable(e) => Err("System Error: " + e)
        case Parsed(p) =>
          if p.status == Some("error") then Err(p.message.GetOr("Unknown NewsAPI error"))
          else if p.articles.Some? then Ok(LatestArticles(p.articles.value, collate))
          else Err("No articles found in the response.")
  }

  /** A page the browser receives holds at most 20 of the answer's own articles, each
      with a title other than "[Removed]" and a publication time, newest first, and no
      listable article of the answer that is missing from it is newer than any on it. */
  lemma GlobalNewsPage(x: Exchange, collate: string -> Key, a: Article)
    requires GlobalNewsReply(x, collate).Ok?
    ensures var page := GlobalNewsReply(x, collate).value;
      var articles := x.body.payload.articles.value;
      |page| <= PageSize && Sorted(page, ByPublished(collate), Descending)
      && (forall i :: 0 <= i < |page| ==> Listable(page[i]) && page[i] in articles)
      && (a in articles && Listable(a) && a !in page ==>
            |page| == PageSize && forall i :: 0 <= i < |page| ==> KeyLe(ByPublished(collate)(a), ByPublished(collate)(page[i])))
  {
    var articles := x.body.payload.articles.value;
    if a in articles && Listable(a) && a !in LatestArticles(articles, collate) {
      LatestArticlesAreTheNewest(articles, collate, a);
    }
  }

  /** Only an `HttpRequestException` is reported as a network error: a call that gives up
      on a timeout throws a cancellation instead, which is reported as a system error. */
  lemma TimeoutIsASystemError(e: string, collate: string -> Key)
    ensures GlobalNewsReply(OtherFailure(e), collate) == Err("System Error: " + e)
    ensures GlobalNewsReply(OtherFailure(e), collate) != GlobalNewsReply(NetworkFailure(e), collate)
  {
    var sys := "System Error: " + e;
    var net := "Network Error: " + e + ". Check your connection.";
    assert sys[0] == 'S' && net[0] == 'N';
  }

  // ---------------------------------------------------------------- GetNews

  const BadKeyMessage := "API Key is missing or invalid in appsettings.json"

  /** `GetNews`' request. `apiKey` always comes first and the language filter second
      when there is one. A keyword searches everything for the quoted keyword, newest
      first, ignoring country and category; without one the configured (or default)
      top-headlines endpoint is asked for the country and category, "general" when
      neither is given. Empty strings stand for missing arguments. */
  function NewsRequest(apiKey: string, uiLang: string, country: string, category: string, query: string,
                       configuredBaseUrl: Option<string>): (r: Result<Request>)
    ensures r.Err? <==> !UsableKey(apiKey)
    ensures r.Err? ==> r.message == BadKeyMessage
    ensures r.Ok? ==> |r.value.params| > 0 && r.value.params[0] == Param("apiKey", apiKey)
    ensures r.Ok? ==> ((Lookup(r.value.params, "language").Some? <==> uiLang in NewsLanguages)
      && (uiLang in NewsLanguages ==> Lookup(r.value.params, "language") == Some(uiLang)))
    ensures r.Ok? && query != "" ==> (r.value.endpoint == Everything
      && Lookup(r.value.params, "q") == Some("\"" + query + "\"")
      && Lookup(r.value.params, "sortBy") == Some("publishedAt")
      && Lookup(r.value.params, "country").None? && Lookup(r.value.params, "category").None?)
    ensures r.Ok? && query == "" ==> (r.value.endpoint == configuredBaseUrl.GetOr(TopHeadlines)
      && Lookup(r.value.params, "q").None?
      && (country != "" ==> Lookup(r.value.params, "country") == Some(country))
      && (country == "" ==> Lookup(r.value.params, "country").None?)
      && (category != "" ==> Lookup(r.value.params, "category") == Some(category))
      && (category == "" && country == "" ==> Lookup(r.value.params, "category") == Some("general"))
      && (category == "" && country != "" ==> Lookup(r.value.params, "category").None?))
  {
    if !UsableKey(apiKey) then Err(BadKeyMessage)
    else
      var head := [Param("apiKey", apiKey)] + LanguageParam(uiLang);
      LookupConcat([Param("apiKey", apiKey)], LanguageParam(uiLang), "language");
      var tail := if query != "" then KeywordParams(query) else HeadlineParams(country, category);
      LookupConcat(head, tail, "language");
      LookupPastHead(apiKey, uiLang, tail, "q");
      LookupPastHead(apiKey, uiLang, tail, "sortBy");
      LookupPastHead(apiKey, uiLang, tail, "country");
      LookupPastHead(apiKey, uiLang, tail, "category");
      Ok(Request(if query != "" then Everything else configuredBaseUrl.GetOr(TopHeadlines), head + tail))
  }

  /** `GetNews`' parameters after the key and language for a keyword search. */
  function KeywordParams(query: string): (r: seq<Param>)
    ensures Lookup(r, "q") == Some("\"" + query + "\"") && Lookup(r, "sortBy") == Some("publishedAt")
    ensures Lookup(r, "country").None? && Lookup(r, "category").None? && Lookup(r, "language").None?
  {
    var r := [Param("q", "\"" + query + "\""), Param("sortBy", "publishedAt")];
    LookupAt(r, 1);
    r
  }

  /** `GetNews`' parameters after the key and language for the headlines. */
  function HeadlineParams(country: string, category: string): (r: seq<Param>)
    ensures Lookup(r, "q").None? && Lookup(r, "language").None?
    ensures country != "" ==> Lookup(r, "country") == Some(country)
    ensures country == "" ==> Lookup(r, "country").None?
    ensures category != "" ==> Lookup(r, "category") == Some(category)
    ensures category == "" && country == "" ==> Lookup(r, "category") == Some("general")
    ensures category == "" && country != "" ==> Lookup(r, "category").None?
  {
    var c := if country != "" then [Param("country", country)] else [];
    var k := if category != "" then [Param("category", category)] else [];
    var g := if country == "" && category == "" then [Param("category", "general")] else [];
    LookupConcat(c, k, "category");
    LookupConcat(c + k, g, "category");
    LookupConcat(c, k, "country");
    LookupConcat(c + k, g, "country");
    LookupConcat(c, k, "q");
    LookupConcat(c + k, g, "q");
    LookupConcat(c, k, "language");
    LookupConcat(c + k, g, "language");
    c + k + g
  }

  /** Past the key and the language filter, a lookup of any other parameter reads the
      rest of the list. */
  lemma LookupPastHead(apiKey: string, uiLang: string, tail: seq<Param>, name: string)
    requires name != "apiKey" && name != "language"
    ensures Lookup([Param("apiKey", apiKey)] + LanguageParam(uiLang) + tail, name) == Lookup(tail, name)
  {
    var head := [Param("apiKey", apiKey)] + LanguageParam(uiLang);
    LookupConcat([Param("apiKey", apiKey)], LanguageParam(uiLang), name);
    LookupConcat(head, tail, name);
  }

  // ---------------------------------------------------------------- GetEverything

  /** `GetEverything`' request: the keyword and sort order as given, and a language
      filter that is always present, English when the UI language is not supported. */
  function EverythingRequest(apiKey: string, uiLang: string, query: string, sortBy: string): (r: Result<Request>)
    ensures r.Err? <==> !UsableKey(apiKey)
    ensures r.Err? ==> r.message == BadKeyMessage
    ensures r.Ok? ==> (r.value.endpoint == Everything
      && Lookup(r.value.params, "apiKey") == Some(apiKey)
      && Lookup(r.value.params, "q") == Some(query)
      && Lookup(r.value.params, "sortBy") == Some(sortBy)
      && Lookup(r.value.params, "language") == Some(if uiLang in NewsLanguages then uiLang else "en"))
  {
    if !UsableKey(apiKey) then Err(BadKeyMessage)
    else
      var lang := if uiLang in NewsLanguages then uiLang else "en";
      var params := Four("apiKey", apiKey, "q", query, "sortBy", sortBy, "language", lang, []);
      HeadOfFour("apiKey", apiKey, "q", query, "sortBy", sortBy, "language", lang, [], "language");
      Ok(Request(Everything, params))
  }

  /** The two keyword endpoints disagree on an unsupported UI language: `GetNews` drops
      the filter, `GetEverything` falls back to English. */
  lemma UnsupportedLanguageHandling(apiKey: string, query: string)
    requires UsableKey(apiKey) && query != ""
    ensures Lookup(NewsRequest(apiKey, "hi", "", "", query, None).value.params, "language").None?
    ensures Lookup(EverythingRequest(apiKey, "hi", query, "publishedAt").value.params, "language") == Some("en")
  {
    assert "hi" !in NewsLanguages by {
      forall i | 0 <= i < |NewsLanguages|
        ensures NewsLanguages[i] != "hi"
      {
        assert NewsLanguages[i][0] != 'h' || NewsLanguages[i][1] != 'i';
      }
    }
  }

  /** The placeholder key is refused by every endpoint except `GetGlobalNews`, which only
      checks that a key is present. */
  lemma PlaceholderKeyOnlyPassesGlobal(uiLang: string, q: string, country: string, category: string,
                                       city: string, cityCountry: Country)
    ensures GlobalNewsRequest(Placeholder, q).Ok?
    ensures NewsRequest(Placeholder, uiLang, country, category, q, None).Err?
    ensures EverythingRequest(Placeholder, uiLang, q, "publishedAt").Err?
    ensures CityNewsRequest(Placeholder, uiLang, city, cityCountry).Err?
  {
  }

  // ---------------------------------------------------------------- GetCityNews

  /** The search text: the non-empty ones of city and country, joined by a space; an
      error when both are empty. */
  function CityQuery(city: string, country: string): (r: Result<string>)
    ensures r.Err? <==> city == "" && country == ""
    ensures r.Err? ==> r.message == "City or Country is required"
    ensures city != "" && country != "" ==> r == Ok(city + " " + country)
    ensures city != "" && country == "" ==> r == Ok(city)
    ensures city == "" && country != "" ==> r == Ok(country)
  {
    var parts := Filter([city, country], (s: string) => s != "");
    var query := Join(parts, " ");
    CityQueryParts(city, country);
    if query == "" then Err("City or Country is required") else Ok(query)
  }

  lemma CityQueryParts(city: string, country: string)
    ensures var parts := Filter([city, country], (s: string) => s != "");
      Join(parts, " ") == if city != "" && country != "" then city + " " + country
        else if city != "" then city else country
  {
    var p := (s: string) => s != "";
    assert [city, country][1..] == [country];
    assert Filter([country], p) == if country != "" then [country] else [];
    var parts := Filter([city, country], p);
    if city != "" && country != "" {
      assert parts == [city, country];
      assert parts[1..] == [country];
    }
  }

  /** The search text read as a topic: lower-cased and trimmed, with "sport" read as
      "sports". */
  function CityTopic(query: string): (r: string)
    ensures Trim(Lower(query)) == "sport" ==> r == "sports"
    ensures Trim(Lower(query)) != "sport" ==> r == Trim(Lower(query))
    ensures NoCapitals(r)
  {
    var lower := Trim(Lower(query));
    LowerTrimmedHasNoCapitals(query);
    if lower == "sport" then "sports" else lower
  }

  predicate NoCapitals(s: string) {
    forall i :: 0 <= i < |s| ==> !('A' <= s[i] <= 'Z')
  }

  lemma LowerTrimmedHasNoCapitals(s: string)
    ensures NoCapitals(Trim(Lower(s)))
  {
    var l := Lower(s);
    assert NoCapitals(l);
    var a, b :| 0 <= a <= b <= |l| && Trim(l) == l[a..b] && IsBlank(l[..a]) && IsBlank(l[b..]);
    SliceHasNoCapitals(l, a, b);
  }

  lemma SliceHasNoCapitals(l: string, a: nat, b: nat)
    requires a <= b <= |l| && NoCapitals(l)
    ensures NoCapitals(l[a..b])
  {
    forall i | 0 <= i < b - a
      ensures !('A' <= l[a..b][i] <= 'Z')
    {
      assert l[a..b][i] == l[a + i];
    }
  }

  /** The country code for a category search: "in" for India, a two-letter country as a
      lower-case code, "in" for anything else. */
  function CountryCode(country: string): (r: string)
    ensures Lower(country) == "india" ==> r == "in"
    ensures Lower(country) != "india" && |country| == 2 ==> r == Lower(country)
    ensures |r| == 2
  {
    if Lower(country) == "india" then "in" else if |country| == 2 then Lower(country) else "in"
  }

  /** What ASP.NET Core binds to `country`: `None` for `country=` with nothing after it,
      which binds `null`; a missing parameter takes the default "". */
  type Country = Option<string>

  /** `string.IsNullOrEmpty(country)` negated. */
  predicate CountryGiven(country: Country) {
    country.Some? && country.value != ""
  }

  /** The message of the `NullReferenceException` that `country.ToLower()` throws on a null
      country; it is thrown before the `try`, so it is not caught and the browser gets a
      server error instead of a JSON reply. */
  const NullCountry := "Object reference not set to an instance of an object."

  /** `GetCityNews`' first request: after the key and the search text are checked, a topic
      that is a category asks top-headlines for that category in the country; any other
      text searches everything, newest first. Both ask for 100 articles and carry the
      language filter last. A null country searches by the city alone, but a category
      topic then dereferences it and fails. A null city is the same as an empty one. */
  function CityNewsRequest(apiKey: string, uiLang: string, city: string, country: Country): (r: Result<Request>)
    ensures !UsableKey(apiKey) ==> r == Err("API Key is missing or invalid")
    ensures UsableKey(apiKey) && CityQuery(city, country.GetOr("")).Err? ==> r == Err(CityQuery(city, country.GetOr("")).message)
    ensures UsableKey(apiKey) && CityQuery(city, country.GetOr("")).Ok? ==>
      (r == Err(NullCountry) <==> country.None? && CityTopic(CityQuery(city, country.GetOr("")).value) in Categories)
    ensures UsableKey(apiKey) ==> (r.Err? <==> (CityQuery(city, country.GetOr("")).Err?
      || (country.None? && CityTopic(CityQuery(city, country.GetOr("")).value) in Categories)))
    ensures r.Ok? ==> (Lookup(r.value.params, "pageSize") == Some("100")
      && Lookup(r.value.params, "apiKey") == Some(apiKey)
      && (Lookup(r.value.params, "language").Some? <==> uiLang in NewsLanguages))
    ensures r.Ok? ==>
      var topic := CityTopic(CityQuery(city, country.GetOr("")).value);
      (topic in Categories ==> country.Some? && r.value == CategoryRequest(topic, CountryCode(country.value), apiKey, uiLang))
      && (topic !in Categories ==> r.value == SearchRequest(CityQuery(city, country.GetOr("")).value, apiKey, uiLang))
  {
    if !UsableKey(apiKey) then Err("API Key is missing or invalid")
    else
      match CityQuery(city, country.GetOr(""))
      case Err(e) => Err(e)
      case Ok(query) =>
        var topic := CityTopic(query);
        if topic !in Categories then Ok(SearchRequest(query, apiKey, uiLang))
        else
          match country
          case None => Err(NullCountry)
          case Some(c) => Ok(CategoryRequest(topic, CountryCode(c), apiKey, uiLang))
  }

  /** `country=` is harmless for a search by city, but makes a category topic fail where a
      missing country falls back to India. */
  lemma NullCountryOnlyHurtsCategories(apiKey: string, uiLang: string)
    requires UsableKey(apiKey)
    ensures CityNewsRequest(apiKey, uiLang, "Pune", None) == Ok(SearchRequest("Pune", apiKey, uiLang))
    ensures CityNewsRequest(apiKey, uiLang, "sports", None) == Err(NullCountry)
    ensures CityNewsRequest(apiKey, uiLang, "sports", Some("")) == Ok(CategoryRequest("sports", "in", apiKey, uiLang))
  {
    assert CityQuery("Pune", "") == Ok("Pune");
    PuneIsNoCategory();
    assert CityQuery("sports", "") == Ok("sports");
    SportsIsACategory();
    assert Lower("") != "india";
  }

  lemma PuneIsNoCategory()
    ensures CityTopic("Pune") !in Categories
  {
    PuneTopic();
    PuneNotInCategories();
  }

  lemma PuneTopic()
    ensures CityTopic("Pune") == "pune"
  {
    LowerPune();
    TrimUntrimmed("pune");
    assert Trim(Lower("Pune")) == "pune";
  }

  lemma PuneNotInCategories()
    ensures "pune" !in Categories
  {
    forall i | 0 <= i < |Categories|
      ensures Categories[i] != "pune"
    {
      assert Categories[i][0] != 'p';
    }
  }

  lemma LowerPune()
    ensures Lower("Pune") == "pune"
  {
    var l := Lower("Pune");
    assert l[0] == 'p' && l[1] == 'u' && l[2] == 'n' && l[3] == 'e';
  }

  lemma SportsIsACategory()
    ensures CityTopic("sports") == "sports" && "sports" in Categories
  {
    SportsTopic();
    assert Categories[5] == "sports";
  }

  lemma SportsTopic()
    ensures CityTopic("sports") == "sports"
  {
    LowerSports();
    TrimUntrimmed("sports");
    assert Trim(Lower("sports")) == "sports";
  }

  lemma LowerSports()
    ensures Lower("sports") == "sports"
  {
    var l := Lower("sports");
    assert l[0] == 's' && l[1] == 'p' && l[2] == 'o' && l[3] == 'r' && l[4] == 't' && l[5] == 's';
  }

  /** The top-headlines request for a category in a country, 100 to a page. */
  function CategoryRequest(category: string, countryCode: string, apiKey: string, uiLang: string): (r: Request)
    ensures r.endpoint == TopHeadlines
    ensures Lookup(r.params, "category") == Some(category) && Lookup(r.params, "country") == Some(countryCode)
    ensures Lookup(r.params, "pageSize") == Some("100") && Lookup(r.params, "apiKey") == Some(apiKey)
    ensures Lookup(r.params, "language").Some? <==> uiLang in NewsLanguages
  {
    var params := Four("category", category, "country", countryCode, "pageSize", "100", "apiKey", apiKey,
                       LanguageParam(uiLang));
    HeadOfFour("category", category, "country", countryCode, "pageSize", "100", "apiKey", apiKey,
               LanguageParam(uiLang), "language");
    Request(TopHeadlines, params)
  }

  /** The everything request for a search text, newest first, 100 to a page; it serves
      both the first search and the country-only fallback. */
  function SearchRequest(query: string, apiKey: string, uiLang: string): (r: Request)
    ensures r.endpoint == Everything
    ensures Lookup(r.params, "q") == Some(query) && Lookup(r.params, "sortBy") == Some("publishedAt")
    ensures Lookup(r.params, "pageSize") == Some("100") && Lookup(r.params, "apiKey") == Some(apiKey)
    ensures Lookup(r.params, "language").Some? <==> uiLang in NewsLanguages
  {
    var params := Four("q", query, "sortBy", "publishedAt", "pageSize", "100", "apiKey", apiKey,
                       LanguageParam(uiLang));
    HeadOfFour("q", query, "sortBy", "publishedAt", "pageSize", "100", "apiKey", apiKey,
               LanguageParam(uiLang), "language");
    Request(Everything, params)
  }

  /** "sport" in any case, with any surrounding space, is the sports category. */
  lemma SportIsTheSportsCategory(city: string)
    requires Trim(Lower(city)) == "sport"
    ensures CityTopic(CityQuery(city, "").value) in Categories
  {
    assert |Lower(city)| > 0;
    assert CityQuery(city, "") == Ok(city);
    assert CityTopic(city) == "sports";
    assert Categories[5] == "sports";
  }

  /** How a `GetAsync` call of `GetCityNews` ended: with a response, successful or not,
      or by throwing an `HttpRequestException` (the network failed) or any other exception
      (a timeout's cancellation, say), each with its message. */
  datatype Call = Responded(success: bool) | ThrewNetwork(error: string) | ThrewOther(error: string)

  /** What the first successful body's `totalResults` reads as: a JSON number, no such
      property, or a failure to read it (a body that is not JSON or not an object, or a
      property that is not a number), with the exception's message. */
  datatype Totals = Count(n: int) | NoCount | Unreadable(error: string)

  /** The message of the `FormatException` `GetInt32` throws for a number outside `int`. */
  const NotAnInt32 := "One of the identified items was in an invalid format."

  /** Which reply reaches the browser: a body NewsAPI sent, "No news found even with
      fallback.", "News service is currently unreachable (Network Error)." with the
      exception's message as details, or the message of any other exception. */
  datatype CityOutcome = FirstBody | FallbackBody | NoNews | Unreachable(details: string) | Failed(message: string)

  /** Reading `totalResults` from a successful first body: the exception it throws, if it
      throws. */
  function ReadFailure(totals: Totals): (r: Option<string>)
    ensures r.None? <==> totals.NoCount? || (totals.Count? && Int32Min <= totals.n <= Int32Max)
  {
    match totals
    case Count(n) => if Int32Min <= n <= Int32Max then None else Some(NotAnInt32)
    case NoCount => None
    case Unreadable(e) => Some(e)
  }

  /** The first search found results: it succeeded and reads a positive `totalResults`. */
  predicate FoundResults(first: Call, totals: Totals) {
    first == Responded(true) && totals.Count? && 0 < totals.n <= Int32Max
  }

  /** An exception, turned into its reply. */
  function Thrown(c: Call): (r: CityOutcome)
    requires !c.Responded?
    ensures c.ThrewNetwork? ==> r == Unreachable(c.error)
    ensures c.ThrewOther? ==> r == Failed(c.error)
  {
    if c.ThrewNetwork? then Unreachable(c.error) else Failed(c.error)
  }

  /** `GetCityNews` from the first call on: the first search's body when it found results;
      else, with a country given, the country search's body when that call succeeds; else
      the first body when its call succeeded, and "no news" otherwise. An exception from
      either call, or from reading `totalResults`, ends the action with its reply at once:
      a first call that throws never gets to the fallback. */
  function CityNewsOutcome(first: Call, totals: Totals, country: Country, fallback: Call): (r: CityOutcome)
    ensures !first.Responded? ==> r == Thrown(first)
    ensures first == Responded(true) && ReadFailure(totals).Some? ==> r == Failed(ReadFailure(totals).value)
    ensures FoundResults(first, totals) ==> r == FirstBody
    ensures r == FallbackBody <==> (first.Responded? && !FoundResults(first, totals)
      && !(first.success && ReadFailure(totals).Some?) && CountryGiven(country) && fallback == Responded(true))
    ensures r == NoNews <==> first == Responded(false) && (!CountryGiven(country) || fallback == Responded(false))
    ensures r == FirstBody ==> first == Responded(true)
    ensures r.Unreachable? ==> first.ThrewNetwork? || (CountryGiven(country) && fallback.ThrewNetwork?)
  {
    match first
    case ThrewNetwork(_) => Thrown(first)
    case ThrewOther(_) => Thrown(first)
    case Responded(ok) =>
      if ok && ReadFailure(totals).Some? then Failed(ReadFailure(totals).value)
      else if FoundResults(first, totals) then FirstBody
      else if CountryGiven(country) && !fallback.Responded? then Thrown(fallback)
      else if CountryGiven(country) && fallback.success then FallbackBody
      else if ok then FirstBody
      else NoNews
  }

  /** A first call that throws decides the reply on its own: whatever the fallback would
      have done makes no difference, since it is never made. */
  lemma ThrownFirstCallSkipsFallback(first: Call, totals: Totals, country: Country, fallback: Call, other: Call)
    requires !first.Responded?
    ensures CityNewsOutcome(first, totals, country, fallback) == CityNewsOutcome(first, totals, country, other)
    ensures CityNewsOutcome(first, totals, country, fallback) != FallbackBody
  {
  }

  /** Without a country (missing, empty or null) there is no fallback call: the reply
      depends on the first call alone. */
  lemma NoCountryNoFallback(first: Call, totals: Totals, country: Country, fallback: Call, other: Call)
    requires !CountryGiven(country)
    ensures CityNewsOutcome(first, totals, country, fallback) == CityNewsOutcome(first, totals, None, other)
    ensures CityNewsOutcome(first, totals, country, fallback) != FallbackBody
  {
  }

  /** With a country given and a first search that found nothing, the fallback's result
      is the reply: its body when it succeeds, its exception when it throws. */
  lemma FallbackDecides(totals: Totals, country: Country, fallback: Call)
    requires CountryGiven(country) && ReadFailure(totals).None? && !FoundResults(Responded(true), totals)
    ensures fallback == Responded(true) ==> CityNewsOutcome(Responded(true), totals, country, fallback) == FallbackBody
    ensures fallback == Responded(false) ==> CityNewsOutcome(Responded(true), totals, country, fallback) == FirstBody
    ensures !fallback.Responded? ==> CityNewsOutcome(Responded(true), totals, country, fallback) == Thrown(fallback)
  {
  }

  /** An empty but successful first search still wins over "no news" when the fallback
      fails, and loses to a fallback that succeeds; a timeout is not a network error. */
  lemma EmptyFirstSearch(country: Country, e: string)
    requires CountryGiven(country)
    ensures CityNewsOutcome(Responded(true), Count(0), country, Responded(false)) == FirstBody
    ensures CityNewsOutcome(Responded(true), Count(0), country, Responded(true)) == FallbackBody
    ensures CityNewsOutcome(ThrewOther(e), NoCount, country, Responded(true)) == Failed(e)
  {
  }

  /** A `totalResults` beyond `int` throws even though the search succeeded. */
  lemma HugeTotalFails(country: Country, fallback: Call)
    ensures CityNewsOutcome(Responded(true), Count(3000000000), country, fallback) == Failed(NotAnInt32)
  {
  }
}
