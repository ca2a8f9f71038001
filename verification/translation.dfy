/** The page translator of `translation.js`, without the DOM: which language it starts in,
    what switching language does, the retry policy for the translation endpoint, which
    texts it asks the endpoint for and in what batches, the debounced queue, and how a
    translated text replaces its source inside a text node. */
module Translation {
  import opened Wrappers
  import opened Seqs
  import opened Text

  const Supported: seq<string> := ["en", "hi", "gu", "mr", "bn", "ta", "es", "fr", "de"]

  const English := "en"

  /** The primary subtag of `navigator.language` (`split('-')[0]`). */
  function PrimaryTag(navigatorLanguage: string): (r: string)
    ensures '-' !in r
    ensures exists k :: 0 <= k <= |navigatorLanguage| && r == navigatorLanguage[..k]
  {
    var parts := Split(navigatorLanguage, '-');
    JoinSplit(navigatorLanguage, '-');
    JoinHeadIsPrefix(parts, "-");
    parts[0]
  }

  lemma {:induction false} JoinHeadIsPrefix(parts: seq<string>, sep: string)
    requires |parts| > 0
    ensures |parts[0]| <= |Join(parts, sep)| && Join(parts, sep)[..|parts[0]|] == parts[0]
  {
    if |parts| > 1 {
      assert Join(parts, sep) == parts[0] + (sep + Join(parts[1..], sep));
    }
  }

  /** The language at page load: whatever was stored (not checked against the list),
      else the browser's primary language when the page supports it, else English. */
  function InitialLanguage(stored: Option<string>, navigatorLanguage: string): (r: string)
    ensures stored.Some? && stored.value != "" ==> r == stored.value
    ensures stored.None? || stored.value == "" ==> r in Supported
    ensures (stored.None? || stored.value == "") && PrimaryTag(navigatorLanguage) in Supported ==>
      r == PrimaryTag(navigatorLanguage)
    ensures (stored.None? || stored.value == "") && PrimaryTag(navigatorLanguage) !in Supported ==> r == English
  {
    if stored.Some? && stored.value != "" then stored.value
    else
      var browser := PrimaryTag(navigatorLanguage);
      if browser in Supported then browser else English
  }

  /** A regional browser language falls back to its primary tag; an unsupported one to
      English. */
  lemma InitialLanguageExamples()
    ensures InitialLanguage(None, "hi-IN") == "hi"
    ensures InitialLanguage(None, "pt-BR") == English
    ensures InitialLanguage(Some("xx"), "fr-FR") == "xx"
  {
    PrimaryTagOf("hi", "IN");
    assert "hi" + "-" + "IN" == "hi-IN";
    assert Supported[1] == "hi";
    PrimaryTagOf("pt", "BR");
    assert "pt" + "-" + "BR" == "pt-BR";
    assert "pt" !in Supported by {
      forall i | 0 <= i < |Supported|
        ensures Supported[i] != "pt"
      {
        assert Supported[i][0] != 'p';
      }
    }
  }

  lemma PrimaryTagOf(language: string, region: string)
    requires '-' !in language
    ensures PrimaryTag(language + "-" + region) == language
  {
    assert language + "-" + region == language + ['-'] + region;
    SplitHead(language, '-', region);
  }

  // ---------------------------------------------------------------- switching language

  datatype LanguageAction = NoAction | RestoreEnglish | TranslatePage

  /** What `setLanguage` touches: the current language, the stored choice, the
      `APP_CULTURE` global, the culture cookie and the root element's `lang`. */
  datatype LanguageState = LanguageState(
    currentLang: string,
    stored: Option<string>,
    appCulture: Option<string>,
    cookie: Option<string>,
    documentLang: string)

  const CookiePrefix := ".AspNetCore.Culture=c="
  const CookieSuffix := ";path=/;max-age=31536000"

  /** The ASP.NET Core request-culture cookie for one language, kept for a year. */
  function CultureCookie(lang: string): string {
    CookiePrefix + lang + "|uic=" + lang + CookieSuffix
  }

  /** `setLanguage`: choosing the current language does nothing at all. Otherwise the
      language is switched, stored when storage accepts the write (`canStore`; a refused
      `setItem` is caught and leaves the stored choice as it was), mirrored into
      `APP_CULTURE` when that is set, written into the culture cookie and the root element;
      English restores the original texts, any other language translates the page. */
  function SetLanguage(s: LanguageState, lang: string, canStore: bool): (r: (LanguageState, LanguageAction))
    ensures s.currentLang == lang ==> r == (s, NoAction)
    ensures s.currentLang != lang ==>
      r.0.currentLang == lang && r.0.documentLang == lang
      && r.0.cookie == Some(CultureCookie(lang))
      && (r.1 == RestoreEnglish <==> lang == English)
      && (r.1 == TranslatePage <==> lang != English)
    ensures s.currentLang != lang && canStore ==> r.0.stored == Some(lang)
    ensures !canStore ==> r.0.stored == s.stored
    ensures s.currentLang != lang && s.appCulture.Some? && s.appCulture.value != "" ==> r.0.appCulture == Some(lang)
    ensures !(s.appCulture.Some? && s.appCulture.value != "") ==> r.0.appCulture == s.appCulture
  {
    if s.currentLang == lang then (s, NoAction)
    else
      var culture := if s.appCulture.Some? && s.appCulture.value != "" then Some(lang) else s.appCulture;
      var stored := if canStore then Some(lang) else s.stored;
      var s' := LanguageState(lang, stored, culture, Some(CultureCookie(lang)), lang);
      (s', if lang == English then RestoreEnglish else TranslatePage)
  }

  /** Selecting the same language twice does the work once, whether or not storage accepts
      the second write. */
  lemma SetLanguageTwice(s: LanguageState, lang: string, canStore: bool, canStoreAgain: bool)
    ensures SetLanguage(SetLanguage(s, lang, canStore).0, lang, canStoreAgain) == (SetLanguage(s, lang, canStore).0, NoAction)
  {
  }

  /** A stored choice is what the next page load starts in: after an accepted switch to a
      non-empty language, a reload picks that language whatever the browser prefers. */
  lemma SetLanguageSurvivesReload(s: LanguageState, lang: string, navigatorLanguage: string)
    requires s.currentLang != lang && lang != ""
    ensures InitialLanguage(SetLanguage(s, lang, true).0.stored, navigatorLanguage) == lang
  {
  }

  /** A switch whose write was refused is forgotten on reload: the next page starts in the
      language chosen by the earlier stored value and the browser, exactly as before. */
  lemma RefusedLanguageIsForgotten(s: LanguageState, lang: string, navigatorLanguage: string)
    ensures InitialLanguage(SetLanguage(s, lang, false).0.stored, navigatorLanguage)
      == InitialLanguage(s.stored, navigatorLanguage)
  {
  }

  /** The culture a cookie names, for both the formatting (`c`) and UI (`uic`) cultures. */
  function ReadCultureCookie(cookie: string): (r: Option<(string, string)>)
  {
    var attrs := Split(cookie, ';');
    var pair := attrs[0];
    if |pair| < |CookiePrefix| || pair[..|CookiePrefix|] != CookiePrefix then None
    else
      var cultures := Split(pair[|CookiePrefix|..], '|');
      if |cultures| != 2 || |cultures[1]| < 4 || cultures[1][..4] != "uic=" then None
      else Some((cultures[0], cultures[1][4..]))
  }

  /** The cookie written for a language names that language twice, as long as the language
      code contains neither of the cookie's separators. */
  lemma CultureCookieRoundTrip(lang: string)
    requires ';' !in lang && '|' !in lang
    ensures ReadCultureCookie(CultureCookie(lang)) == Some((lang, lang))
  {
    var pair := CookiePrefix + lang + "|uic=" + lang;
    CookieAttributes(lang, pair);
    assert pair[..|CookiePrefix|] == CookiePrefix;
    assert pair[|CookiePrefix|..] == lang + "|uic=" + lang;
    CulturePair(lang);
  }

  /** The cookie's first `;`-separated attribute is the culture pair. */
  lemma CookieAttributes(lang: string, pair: string)
    requires ';' !in lang && pair == CookiePrefix + lang + "|uic=" + lang
    ensures Split(CultureCookie(lang), ';')[0] == pair
  {
    assert CookieSuffix == [';'] + "path=/;max-age=31536000";
    assert CultureCookie(lang) == pair + [';'] + "path=/;max-age=31536000";
    assert ';' !in pair by {
      assert pair == CookiePrefix + (lang + ("|uic=" + lang));
      assert ';' !in CookiePrefix && ';' !in "|uic=";
    }
    SplitHead(pair, ';', "path=/;max-age=31536000");
  }

  /** The pair's value names the culture once for `c` and once for `uic`. */
  lemma CulturePair(lang: string)
    requires '|' !in lang
    ensures var cultures := Split(lang + "|uic=" + lang, '|');
      |cultures| == 2 && cultures[0] == lang && cultures[1] == "uic=" + lang
  {
    var parts := [lang, "uic=" + lang];
    assert Join(parts, "|") == lang + "|uic=" + lang by {
      assert parts[1..] == ["uic=" + lang];
      assert Join(parts[1..], "|") == "uic=" + lang;
    }
    assert '|' !in "uic=" + lang;
    SplitJoin(parts, '|');
  }

  // ---------------------------------------------------------------- retry policy

  /** One call of `fetch`: a response with its status, or a thrown network error. */
  datatype Attempt = Response(status: int) | NetworkError

  /** `response.ok`. */
  predicate IsOk(status: int) {
    200 <= status <= 299
  }

  /** Attempts that are thrown into the retry path: network errors, 429, and every other
      status that is neither a success nor a client error. */
  predicate Retriable(a: Attempt) {
    a.NetworkError? || (!IsOk(a.status) && !(400 <= a.status < 500 && a.status != 429))
  }

  lemma RetriableStatuses(status: int)
    ensures Retriable(Response(status)) <==> status == 429 || status < 200 || 300 <= status < 400 || status >= 500
  {
  }

  /** The wait before retry number `i` (from 0) when the first wait is `backoff`. */
  function Delay(backoff: nat, i: nat): nat
    decreases i
  {
    if i == 0 then backoff else Delay(backoff * 2, i - 1)
  }

  /** The result of `fetchWithRetry`: the response it returns (`None` when it rethrows) and
      the back-off delays it waited through, one per retry. */
  datatype FetchOutcome = FetchOutcome(response: Option<int>, waits: seq<nat>)

  /** Each of `waits` followed a retriable attempt, counting attempts from `k`, and is the
      delay at its place in the doubling from `backoff`. */
  predicate WaitedAfterRetriable(attempt: nat -> Attempt, k: nat, backoff: nat, waits: seq<nat>) {
    forall i :: 0 <= i < |waits| ==> waits[i] == Delay(backoff, i) && Retriable(attempt(k + i))
  }

  /** `fetchWithRetry(url, options, retries, backoff)`, where `attempt(k)` is what the k-th
      call of `fetch` gives: a non-retriable answer is returned at once; a retriable one is
      retried after `backoff` ms, with one retry fewer and the delay doubled; when no retry
      is left the error is rethrown. */
  function FetchWithRetry(attempt: nat -> Attempt, k: nat, retries: nat, backoff: nat): (r: FetchOutcome)
    ensures |r.waits| <= retries
    ensures WaitedAfterRetriable(attempt, k, backoff, r.waits)
    ensures r.response.Some? ==> !Retriable(attempt(k + |r.waits|)) && r.response.value == attempt(k + |r.waits|).status
    ensures r.response.None? ==> |r.waits| == retries && Retriable(attempt(k + retries))
    decreases retries
  {
    var a := attempt(k);
    if !Retriable(a) then FetchOutcome(Some(a.status), [])
    else if retries == 0 then FetchOutcome(None, [])
    else
      var rest := FetchWithRetry(attempt, k + 1, retries - 1, backoff * 2);
      EarlierWait(attempt, k, backoff, rest.waits);
      FetchOutcome(rest.response, [backoff] + rest.waits)
  }

  /** A first wait of `backoff` in front of the waits of the retries that follow, which
      start from the doubled delay, keeps every wait at its place in the doubling. */
  lemma EarlierWait(attempt: nat -> Attempt, k: nat, backoff: nat, later: seq<nat>)
    requires Retriable(attempt(k))
    requires WaitedAfterRetriable(attempt, k + 1, backoff * 2, later)
    ensures WaitedAfterRetriable(attempt, k, backoff, [backoff] + later)
  {
    var waits := [backoff] + later;
    forall i | 0 <= i < |waits|
      ensures waits[i] == Delay(backoff, i) && Retriable(attempt(k + i))
    {
      if i > 0 {
        var j := i - 1;
        assert waits[i] == later[j];
        assert later[j] == Delay(backoff * 2, j) && Retriable(attempt(k + 1 + j));
        assert k + i == k + 1 + j;
      } else {
        assert k + i == k;
      }
    }
  }

  /** With the defaults (3 retries from 1000 ms) the translator calls the endpoint at most
      four times, waiting 1, 2 and then 4 seconds, and gives up only after four retriable
      answers in a row. */
  lemma DefaultRetryPolicy(attempt: nat -> Attempt)
    ensures var r := FetchWithRetry(attempt, 0, 3, 1000);
      |r.waits| <= 3 && r.waits == [1000, 2000, 4000][..|r.waits|]
      && (r.response.None? <==> forall i :: 0 <= i < 4 ==> Retriable(attempt(i)))
  {
    var r := FetchWithRetry(attempt, 0, 3, 1000);
    assert Delay(1000, 0) == 1000 && Delay(1000, 1) == 2000 && Delay(1000, 2) == 4000;
    assert WaitedAfterRetriable(attempt, 0, 1000, r.waits);
    if r.response.Some? {
      assert !Retriable(attempt(|r.waits|));
    }
  }

  // ---------------------------------------------------------------- what gets fetched

  predicate Distinct(s: seq<string>) {
    forall i, j :: 0 <= i < j < |s| ==> s[i] != s[j]
  }

  /** `[...textsToFetch]`: the collected texts missing from the language's cache, each
      once, in the order they were first collected (a `Set` keeps insertion order). */
  function FetchList(texts: seq<string>, cached: set<string>): (r: seq<string>)
    ensures Distinct(r)
    ensures forall i :: 0 <= i < |r| ==> r[i] in texts && r[i] !in cached
    ensures forall i :: 0 <= i < |texts| && texts[i] !in cached ==> texts[i] in r
    decreases |texts|
  {
    if |texts| == 0 then []
    else
      var init := texts[..|texts| - 1];
      var t := texts[|texts| - 1];
      var p := FetchList(init, cached);
      assert forall i :: 0 <= i < |init| ==> init[i] == texts[i];
      if t in cached || t in p then p else p + [t]
  }

  /** Collecting more texts only appends to the fetch list: what was missing first is
      requested first. */
  lemma {:induction false} FetchListExtends(a: seq<string>, b: seq<string>, cached: set<string>)
    ensures var full := FetchList(a + b, cached);
      |FetchList(a, cached)| <= |full| && full[..|FetchList(a, cached)|] == FetchList(a, cached)
    decreases |b|
  {
    if |b| == 0 {
      assert a + b == a;
    } else {
      var ab := a + b;
      var init := a + b[..|b| - 1];
      assert ab[..|ab| - 1] == init;
      FetchListExtends(a, b[..|b| - 1], cached);
      FetchListLast(ab, cached);
      PrefixExtends(FetchList(a, cached), FetchList(init, cached), FetchList(ab, cached), ab[|ab| - 1]);
    }
  }

  /** One step of collection: the last text is added at the end, or not at all. */
  lemma FetchListLast(texts: seq<string>, cached: set<string>)
    requires |texts| > 0
    ensures var p := FetchList(texts[..|texts| - 1], cached);
      FetchList(texts, cached) == p || FetchList(texts, cached) == p + [texts[|texts| - 1]]
  {
  }

  lemma PrefixExtends<T>(prefix: seq<T>, p: seq<T>, full: seq<T>, t: T)
    requires |prefix| <= |p| && p[..|prefix|] == prefix
    requires full == p || full == p + [t]
    ensures |prefix| <= |full| && full[..|prefix|] == prefix
  {
    assert full[..|prefix|] == p[..|prefix|];
  }

  const ChunkSize: nat := 50

  function Flatten(chunks: seq<seq<string>>): (r: seq<string>)
    decreases |chunks|
  {
    if |chunks| == 0 then [] else chunks[0] + Flatten(chunks[1..])
  }

  /** The batching loop: consecutive slices of `size`, the last one possibly shorter. */
  function Chunks(list: seq<string>, size: nat): (r: seq<seq<string>>)
    requires size > 0
    ensures Flatten(r) == list
    ensures forall i :: 0 <= i < |r| ==> 0 < |r[i]| <= size
    ensures forall i :: 0 <= i < |r| - 1 ==> |r[i]| == size
    decreases |list|
  {
    if |list| == 0 then []
    else if |list| <= size then
      assert Flatten([list]) == list + Flatten([]);
      [list]
    else
      var rest := Chunks(list[size..], size);
      assert ([list[..size]] + rest)[1..] == rest;
      assert list == list[..size] + list[size..];
      [list[..size]] + rest
  }

  predicate NotBlank(t: string) {
    |Trim(t)| > 0
  }

  function KeepNotBlank(): string -> bool {
    (t: string) => NotBlank(t)
  }

  function TrimAll(texts: seq<string>): (r: seq<string>)
    ensures |r| == |texts|
    ensures forall i :: 0 <= i < |texts| ==> r[i] == Trim(texts[i])
  {
    seq(|texts|, i requires 0 <= i < |texts| => Trim(texts[i]))
  }

  /** The requests `translateNodes` sends, given the original texts of the queued nodes:
      nothing for English; otherwise the trimmed, non-blank texts missing from the cache,
      in batches of at most 50 from which blank texts are dropped, empty batches skipped. */
  function NodeRequests(lang: string, originals: seq<string>, cached: set<string>): (r: seq<seq<string>>)
    ensures lang == English ==> r == []
    ensures forall i :: 0 <= i < |r| ==> 0 < |r[i]| <= ChunkSize
  {
    if lang == English then []
    else
      var texts := TrimAll(Filter(originals, KeepNotBlank()));
      var chunks := Chunks(FetchList(texts, cached), ChunkSize);
      DropBlankBounded(chunks, ChunkSize);
      DropBlankInChunks(chunks)
  }

  /** Every batch holds at most `size` texts. */
  ghost predicate BatchesWithin<T>(chunks: seq<seq<T>>, size: nat) {
    forall j :: 0 <= j < |chunks| ==> |chunks[j]| <= size
  }

  /** Every batch is non-empty and holds only non-blank texts. */
  ghost predicate CleanBatches(chunks: seq<seq<string>>) {
    forall i :: 0 <= i < |chunks| ==> 0 < |chunks[i]| && AllNotBlank(chunks[i])
  }

  ghost predicate AllNotBlank(c: seq<string>) {
    forall k :: 0 <= k < |c| ==> NotBlank(c[k])
  }

  /** Drops blank texts from every batch and skips batches left empty. */
  function DropBlankInChunks(chunks: seq<seq<string>>): (r: seq<seq<string>>)
    ensures |r| <= |chunks|
    ensures forall i :: 0 <= i < |r| ==> |r[i]| > 0
    decreases |chunks|
  {
    if |chunks| == 0 then []
    else
      var c := Filter(chunks[0], KeepNotBlank());
      var rest := DropBlankInChunks(chunks[1..]);
      if |c| == 0 then rest else [c] + rest
  }

  /** Dropping texts never makes a batch larger. */
  lemma {:induction false} DropBlankBounded(chunks: seq<seq<string>>, size: nat)
    requires BatchesWithin(chunks, size)
    ensures BatchesWithin(DropBlankInChunks(chunks), size)
    decreases |chunks|
  {
    if |chunks| > 0 {
      BoundedTail(chunks, size);
      DropBlankBounded(chunks[1..], size);
      var c := Filter(chunks[0], KeepNotBlank());
      DropBlankUnfold(chunks);
      if |c| > 0 {
        BatchesWithinCons(c, DropBlankInChunks(chunks[1..]), size);
      }
    }
  }

  lemma BatchesWithinCons<T>(c: seq<T>, rest: seq<seq<T>>, size: nat)
    requires |c| <= size && BatchesWithin(rest, size)
    ensures BatchesWithin([c] + rest, size)
  {
    forall j | 0 <= j < |rest| + 1
      ensures |([c] + rest)[j]| <= size
    {
      if j > 0 {
        assert ([c] + rest)[j] == rest[j - 1];
      }
    }
  }

  lemma BoundedTail(chunks: seq<seq<string>>, size: nat)
    requires |chunks| > 0 && BatchesWithin(chunks, size)
    ensures BatchesWithin(chunks[1..], size)
  {
    forall j | 0 <= j < |chunks| - 1
      ensures |chunks[1..][j]| <= size
    {
      assert chunks[1..][j] == chunks[j + 1];
    }
  }

  /** Batches that are non-empty and free of blank texts pass through unchanged. */
  lemma {:induction false} DropBlankKeepsCleanBatches(chunks: seq<seq<string>>)
    requires CleanBatches(chunks)
    ensures DropBlankInChunks(chunks) == chunks
    decreases |chunks|
  {
    if |chunks| > 0 {
      CleanTail(chunks);
      DropBlankKeepsCleanBatches(chunks[1..]);
      CleanHead(chunks);
      DropBlankUnfold(chunks);
      HeadTail(chunks);
    }
  }

  lemma CleanHead(chunks: seq<seq<string>>)
    requires |chunks| > 0 && CleanBatches(chunks)
    ensures |chunks[0]| > 0 && Filter(chunks[0], KeepNotBlank()) == chunks[0]
  {
    FilterKeepsNotBlank(chunks[0]);
  }

  lemma DropBlankUnfold(chunks: seq<seq<string>>)
    requires |chunks| > 0
    ensures var c := Filter(chunks[0], KeepNotBlank());
      DropBlankInChunks(chunks) == if |c| == 0 then DropBlankInChunks(chunks[1..]) else [c] + DropBlankInChunks(chunks[1..])
  {
  }

  lemma CleanTail(chunks: seq<seq<string>>)
    requires |chunks| > 0 && CleanBatches(chunks)
    ensures CleanBatches(chunks[1..])
  {
    forall j | 0 <= j < |chunks| - 1
      ensures 0 < |chunks[1..][j]| && AllNotBlank(chunks[1..][j])
    {
      assert chunks[1..][j] == chunks[j + 1];
    }
  }

  lemma FilterKeepsNotBlank(c: seq<string>)
    ensures AllNotBlank(c) ==> Filter(c, KeepNotBlank()) == c
  {
    if AllNotBlank(c) {
      FilterAll(c, KeepNotBlank());
    }
  }

  /** The node path's blank filter never removes anything: every text it sees is already
      trimmed and non-blank, so the requests are exactly the fetch list cut into 50s. */
  lemma NodeRequestsAreChunkedFetchList(lang: string, originals: seq<string>, cached: set<string>)
    requires lang != English
    ensures var texts := TrimAll(Filter(originals, KeepNotBlank()));
      NodeRequests(lang, originals, cached) == Chunks(FetchList(texts, cached), ChunkSize)
      && Flatten(NodeRequests(lang, originals, cached)) == FetchList(texts, cached)
  {
    var valid := Filter(originals, KeepNotBlank());
    var texts := TrimAll(valid);
    var list := FetchList(texts, cached);
    forall i | 0 <= i < |texts|
      ensures NotBlank(texts[i])
    {
      assert NotBlank(valid[i]);
      TrimIdempotent(valid[i]);
    }
    var chunks := Chunks(list, ChunkSize);
    forall i, k | 0 <= i < |chunks| && 0 <= k < |chunks[i]|
      ensures NotBlank(chunks[i][k])
    {
      FlattenMember(chunks, i, k);
      var t := chunks[i][k];
      assert t in list;
    }
    DropBlankKeepsCleanBatches(chunks);
  }

  lemma {:induction false} FlattenMember(chunks: seq<seq<string>>, i: nat, k: nat)
    requires i < |chunks| && k < |chunks[i]|
    ensures chunks[i][k] in Flatten(chunks)
    decreases i
  {
    if i > 0 {
      FlattenMember(chunks[1..], i - 1, k);
    }
  }

  /** The requests `translateAttributes` sends: nothing for English or when no text was
      collected; otherwise the fetch list in batches of at most 50. */
  function AttributeRequests(lang: string, texts: seq<string>, cached: set<string>): (r: seq<seq<string>>)
    ensures lang == English || |texts| == 0 ==> r == []
    ensures lang != English ==> Flatten(r) == FetchList(texts, cached)
    ensures forall i :: 0 <= i < |r| ==> 0 < |r[i]| <= ChunkSize
  {
    if lang == English || |texts| == 0 then [] else Chunks(FetchList(texts, cached), ChunkSize)
  }

  // ---------------------------------------------------------------- queue and replacement

  /** The two pending sets of the mutation observer, as sequences in insertion order. */
  datatype Queues = Queues(textNodes: seq<int>, elements: seq<int>)

  /** `processQueue`: with both queues empty nothing happens; otherwise both are emptied and
      their contents handed to the node and attribute translators. */
  function ProcessQueue(q: Queues): (r: (Queues, Option<Queues>))
    ensures |q.textNodes| == 0 && |q.elements| == 0 ==> r == (q, None)
    ensures |q.textNodes| > 0 || |q.elements| > 0 ==> r == (Queues([], []), Some(q))
  {
    if |q.textNodes| == 0 && |q.elements| == 0 then (q, None) else (Queues([], []), Some(q))
  }

  /** A second drain right after the first has nothing to do, and nothing queued is lost. */
  lemma ProcessQueueDrains(q: Queues)
    ensures ProcessQueue(ProcessQueue(q).0) == (Queues([], []), None)
    ensures ProcessQueue(q).1.Some? ==> ProcessQueue(q).1.value == q
  {
  }

  /** Applying a translation to a text node: the first occurrence of the trimmed source is
      replaced through `replace`, whose `$` patterns are expanded; when the node no longer
      contains it, the whole value is assigned, with no expansion. */
  function ApplyTranslation(nodeValue: string, source: string, translated: string): (r: string)
    ensures IndexOf(nodeValue, source).Some? ==> r == ReplaceFirstOccurrence(nodeValue, source, translated)
    ensures IndexOf(nodeValue, source).None? ==> r == translated
  {
    ContainsIffIndexOf(nodeValue, source);
    if Contains(nodeValue, source) then ReplaceFirstOccurrence(nodeValue, source, translated) else translated
  }

  /** A node still holding its original text keeps the white space around it: only the
      trimmed text itself is swapped, for the translation with its `$` patterns expanded,
      which is the translation itself when it holds no `$`. */
  lemma TranslationKeepsSurroundingSpace(original: string, translated: string)
    requires NotBlank(original)
    ensures exists a, b :: (0 <= a <= b <= |original| && IsBlank(original[..a]) && IsBlank(original[b..])
      && original[a..b] == Trim(original)
      && ApplyTranslation(original, Trim(original), translated)
         == original[..a] + Substitute(translated, Trim(original), original[..a], original[b..]) + original[b..])
    ensures '$' !in translated ==> exists a, b :: (0 <= a <= b <= |original| && IsBlank(original[..a])
      && IsBlank(original[b..]) && original[a..b] == Trim(original)
      && ApplyTranslation(original, Trim(original), translated) == original[..a] + translated + original[b..])
  {
    var source := Trim(original);
    var a, b := TrimBounds(original);
    ReplaceBetweenBlanks(original, translated, a, b);
    var pre, post := original[..a], original[b..];
    assert ApplyTranslation(original, source, translated) == pre + Substitute(translated, source, pre, post) + post;
    if '$' !in translated {
      SubstituteLiteral(translated, source, pre, post);
      assert ApplyTranslation(original, source, translated) == pre + translated + post;
    }
  }

  /** Where the trimmed text of a node that is not blank starts and ends. */
  lemma TrimBounds(original: string) returns (a: nat, b: nat)
    requires NotBlank(original)
    ensures a < b <= |original| && IsBlank(original[..a]) && IsBlank(original[b..])
    ensures original[a..b] == Trim(original) && !IsWhiteSpace(original[a])
  {
    var source := Trim(original);
    a, b :| 0 <= a <= b <= |original| && source == original[a..b] && IsBlank(original[..a]) && IsBlank(original[b..]);
    assert |source| > 0 && !IsWhiteSpace(source[0]);
    assert source[0] == original[a];
  }

  lemma ReplaceBetweenBlanks(original: string, translated: string, a: nat, b: nat)
    requires a < b <= |original| && IsBlank(original[..a]) && !IsWhiteSpace(original[a])
    ensures ApplyTranslation(original, original[a..b], translated)
      == original[..a] + Substitute(translated, original[a..b], original[..a], original[b..]) + original[b..]
  {
    SliceAfterBlankComesFirst(original, a, b);
    ApplyAt(original, original[a..b], translated, a, b);
  }

  /** Where the source text is first found between `i` and `end`, that stretch is what gets
      replaced. */
  lemma ApplyAt(nodeValue: string, source: string, translated: string, i: nat, end: nat)
    requires IndexOf(nodeValue, source) == Some(i) && end == i + |source|
    ensures ApplyTranslation(nodeValue, source, translated)
      == nodeValue[..i] + Substitute(translated, source, nodeValue[..i], nodeValue[end..]) + nodeValue[end..]
  {
  }

  /** The text that starts right after a blank prefix is first found where it starts. */
  lemma SliceAfterBlankComesFirst(original: string, a: nat, b: nat)
    requires a < b <= |original| && IsBlank(original[..a]) && !IsWhiteSpace(original[a])
    ensures IndexOf(original, original[a..b]) == Some(a)
  {
    var source := original[a..b];
    assert source[0] == original[a];
    assert OccursAt(original, source, a);
    FirstOccurrenceAfterBlank(original, source, a);
  }

  /** A translation reading "$$" comes out as "$" on a node whose whole text is the
      source, while escaping every `$` first would insert any translation exactly. */
  lemma DollarsInTranslations(source: string, translated: string)
    requires |source| > 0
    ensures ApplyTranslation(source, source, "$$") == "$"
    ensures ApplyTranslation(source, source, EscapeDollars(translated)) == translated
  {
    assert OccursAt(source, source, 0);
    assert IndexOf(source, source) == Some(0);
    assert source[..0] == "" && source[|source|..] == "";
    DoubleDollarCollapses(source, "", "");
    SubstituteEscaped(translated, source, "", "");
  }

  /** A text that starts with a non-space character cannot occur inside leading white
      space, so its first occurrence is where the white space ends. */
  lemma FirstOccurrenceAfterBlank(s: string, t: string, a: nat)
    requires a <= |s| && IsBlank(s[..a]) && OccursAt(s, t, a)
    requires |t| > 0 && !IsWhiteSpace(t[0])
    ensures IndexOf(s, t) == Some(a)
  {
    forall k | 0 <= k < a
      ensures !OccursAt(s, t, k)
    {
      NoOccurrenceAtBlank(s, t, a, k);
    }
  }

  lemma NoOccurrenceAtBlank(s: string, t: string, a: nat, k: nat)
    requires k < a <= |s| && IsBlank(s[..a])
    requires |t| > 0 && !IsWhiteSpace(t[0])
    ensures !OccursAt(s, t, k)
  {
    assert s[..a][k] == s[k];
    if k + |t| <= |s| {
      assert s[k..k + |t|][0] == s[k];
    }
  }
}
