/** The web-search provider: a fixed table of search engines selected by a shortcut prefix, a
    debounced API lookup for three package registries, a TTL cache of their results and the
    cache file's record format. Parsed JSON documents stand for the network replies and for the
    cache file; time is whole seconds since the epoch. */
module WebSearch {
  import opened Feature
  import opened Json
  import opened Options
  import opened Percent
  import opened Text
  import Utf8

  // ---------------------------------------------------------------- providers

  /** A URL pattern with one `%1` placeholder, split around it. */
  datatype Template = Template(before: string, after: string) {
    /** QString::arg(a): the placeholder replaced by `a`. */
    function Fill(a: string): (r: string)
      ensures |r| == |before| + |a| + |after|
      ensures r[..|before|] == before && r[|before|..|before| + |a|] == a
    {
      before + a + after
    }
  }

  /** SearchProvider. `apiUrl` is None for the providers constructed without an API URL. */
  datatype Provider = Provider(name: string, shortcut: string, icon: string, searchUrl: Template,
                               description: string, apiUrl: Option<Template>, hasApi: bool,
                               cacheType: string)

  function Engine(name: string, shortcut: string, icon: string, url: string, description: string): Provider {
    Provider(name, shortcut, icon, Template(url, ""), description, None, false, "")
  }

  /** The hosts onApiResponse recognises in a reply's URL. */
  const NpmMarker := "registry.npmjs.org"
  const CargoMarker := "crates.io/api"
  const GitHubMarker := "api.github.com"

  /** The three providers with an API and a cache type; their API URLs are written around the
      markers above. */
  const NpmProvider := Provider("NPM", "npm", "applications-development",
    Template("https://www.npmjs.com/search?q=", ""), "Search NPM packages",
    Some(Template("https://" + NpmMarker + "/-/v1/search?text=", "&size=10")), true, "npm")
  const CargoProvider := Provider("Cargo", "cargo", "applications-development",
    Template("https://crates.io/search?q=", ""), "Search Rust crates",
    Some(Template("https://" + CargoMarker + "/v1/crates?q=", "&per_page=10")), true, "cargo")
  const GitHubProvider := Provider("GitHub", "gh", "applications-development",
    Template("https://github.com/search?q=", ""), "Search GitHub repositories",
    Some(Template("https://" + GitHubMarker + "/search/repositories?q=", "&sort=stars&order=desc&per_page=10")),
    true, "github")

  /** Search::setupProviders, in table order. */
  const Providers: seq<Provider> := [
    Engine("Google", "g", "web-browser", "https://www.google.com/search?q=", "Search Google"),
    Engine("DuckDuckGo", "ddg", "web-browser", "https://duckduckgo.com/?q=", "Search DuckDuckGo"),
    Engine("Bing", "bing", "web-browser", "https://www.bing.com/search?q=", "Search Bing"),
    Engine("Yandex", "yandex", "web-browser", "https://yandex.com/search/?text=", "Search Yandex"),
    NpmProvider,
    CargoProvider,
    GitHubProvider,
    Engine("PyPI", "pypi", "applications-development", "https://pypi.org/search/?q=", "Search Python packages"),
    Engine("Docker Hub", "docker", "applications-development", "https://hub.docker.com/search?q=", "Search Docker images"),
    Engine("MDN", "mdn", "text-html", "https://developer.mozilla.org/en-US/search?q=", "Search MDN Web Docs"),
    Engine("Stack Overflow", "so", "applications-development", "https://stackoverflow.com/search?q=", "Search Stack Overflow"),
    Engine("Reddit", "reddit", "internet-web-browser", "https://www.reddit.com/search/?q=", "Search Reddit"),
    Engine("YouTube", "yt", "applications-multimedia", "https://www.youtube.com/results?search_query=", "Search YouTube"),
    Engine("Wikipedia", "wiki", "accessories-dictionary", "https://en.wikipedia.org/wiki/Special:Search/", "Search Wikipedia"),
    Engine("Arch AUR", "aur", "applications-system", "https://aur.archlinux.org/packages/?K=", "Search Arch User Repository"),
    Engine("Debian Packages", "deb", "applications-system", "https://packages.debian.org/search?keywords=", "Search Debian packages"),
    Engine("Homebrew", "brew", "applications-system", "https://formulae.brew.sh/formula/", "Search Homebrew packages"),
    Engine("Twitter", "tw", "internet-web-browser", "https://twitter.com/search?q=", "Search Twitter")
  ]

  // ---------------------------------------------------------------- dispatch

  /** The query starts with the shortcut and a space, ignoring case. */
  predicate Selects(p: Provider, query: string) {
    StartsWithIgnoringCase(query, p.shortcut + " ")
  }

  /** The index of the first provider at or after `from` that the query selects. */
  function FirstSelecting(ps: seq<Provider>, query: string, from: nat): (r: Option<nat>)
    requires from <= |ps|
    ensures r.Some? ==>
      from <= r.value < |ps| && Selects(ps[r.value], query)
      && forall j :: from <= j < r.value ==> !Selects(ps[j], query)
    ensures r.None? ==> forall j :: from <= j < |ps| ==> !Selects(ps[j], query)
    decreases |ps| - from
  {
    if from == |ps| then None
    else if Selects(ps[from], query) then Some(from)
    else FirstSelecting(ps, query, from + 1)
  }

  /** The provider of the table `ps` that the loop of Search::search stops at. */
  function Dispatch(ps: seq<Provider>, query: string): Option<nat> {
    FirstSelecting(ps, query, 0)
  }

  /** Search::extractSearchQuery: the trimmed text after the shortcut and its space, or empty
      when the query does not start with them. */
  function ExtractSearchQuery(query: string, shortcut: string): (r: string)
    ensures !StartsWithIgnoringCase(query, shortcut + " ") ==> r == []
    ensures StartsWithIgnoringCase(query, shortcut + " ") ==> r == Trim(query[|shortcut| + 1..])
  {
    if StartsWithIgnoringCase(query, shortcut + " ") then Trim(query[|shortcut + " "|..]) else []
  }

  /** The item the provider itself contributes for the (trimmed) remainder `rest`. */
  function LocalItem(p: Provider, rest: string): FeatureItem {
    if rest == [] then FeatureItem(p.name, p.description, p.icon, p.searchUrl.Fill(""), "search")
    else FeatureItem("Search " + p.name + ": " + rest, p.description, p.icon,
                     p.searchUrl.Fill(PercentEncode(rest)), "search")
  }

  /** The local item carries the remainder recoverably: decoding the part of its URL that the
      template does not supply gives the remainder back. */
  lemma LocalItemUrl(p: Provider, rest: string)
    requires rest != []
    ensures LocalItem(p, rest).title == "Search " + p.name + ": " + rest
    ensures LocalItem(p, rest).itemType == "search"
    ensures var url := LocalItem(p, rest).data;
      var arg := url[|p.searchUrl.before|..|url| - |p.searchUrl.after|];
      Utf8.DecodeFrom(DecodeBytes(arg)) == rest
  {
    var e := PercentEncode(rest);
    var url := p.searchUrl.Fill(e);
    assert url[|p.searchUrl.before|..|url| - |p.searchUrl.after|] == e;
    PercentEncodeInverse(rest);
  }

  // ---------------------------------------------------------------- result items

  /** Search::createFeatureItem. */
  function CreateFeatureItem(name: string, description: string, url: string, metric: string): (it: FeatureItem)
    ensures it.title == name && it.data == url
    ensures it.icon == "applications-development" && it.itemType == "search"
    ensures metric == [] ==> it.subtitle == description
    ensures metric != [] ==>
      StartsWith(it.subtitle, metric + " \U{2022} ") && it.subtitle[|metric| + 3..] == description
  {
    var subtitle := if metric != [] then metric + " \U{2022} " + description else description;
    FeatureItem(name, subtitle, "applications-development", url, "search")
  }

  /** A description longer than 80 characters is cut to its first 77 and "...". */
  function Truncate(d: string): (r: string)
    ensures |r| <= 80
    ensures |d| <= 80 ==> r == d
    ensures |d| > 80 ==> |r| == 80 && r[..77] == d[..77] && r[77..] == "..."
  {
    if |d| > 80 then d[..77] + "..." else d
  }

  /** One element of the "objects" array of the npm registry's search reply. */
  function NpmItem(v: Json): FeatureItem {
    var pkg := Field(v, "package");
    var name := ToText(Field(pkg, "name"));
    var downloads := ToInt(Field(Field(v, "downloads"), "monthly"));
    CreateFeatureItem(name + " v" + ToText(Field(pkg, "version")),
                      Truncate(ToText(Field(pkg, "description"))),
                      "https://www.npmjs.com/package/" + name,
                      IntToString(downloads) + " downloads")
  }

  /** One element of the "crates" array of the crates.io reply. */
  function CargoItem(v: Json): FeatureItem {
    var name := ToText(Field(v, "name"));
    CreateFeatureItem(name + " v" + ToText(Field(v, "max_version")),
                      Truncate(ToText(Field(v, "description"))),
                      "https://crates.io/crates/" + name,
                      IntToString(ToInt(Field(v, "downloads"))) + " downloads")
  }

  /** One element of the "items" array of the GitHub repository search reply. */
  function GitHubItem(v: Json): FeatureItem {
    CreateFeatureItem(ToText(Field(v, "full_name")),
                      Truncate(ToText(Field(v, "description"))),
                      ToText(Field(v, "html_url")),
                      "\U{2B50} " + IntToString(ToInt(Field(v, "stargazers_count"))))
  }

  /** The array under `key` of a reply document; nothing when the document is not an object. */
  function Elements(doc: Json, key: string): seq<Json> {
    if doc.JObject? then ToArray(Field(doc, key)) else []
  }

  /** One item per element of the array under `key`, in order. */
  function ParsedItems(doc: Json, key: string, toItem: Json -> FeatureItem): (r: seq<FeatureItem>)
    ensures |r| == |Elements(doc, key)|
    ensures forall i :: 0 <= i < |r| ==> r[i] == toItem(Elements(doc, key)[i])
  {
    var es := Elements(doc, key);
    seq(|es|, i requires 0 <= i < |es| => toItem(es[i]))
  }

  /** The loop shared by the three parsers: one item per array element, in order. */
  method ParseResults(doc: Json, key: string, toItem: Json -> FeatureItem) returns (results: seq<FeatureItem>)
    ensures |results| == |Elements(doc, key)|
    ensures forall i :: 0 <= i < |results| ==> results[i] == toItem(Elements(doc, key)[i])
    ensures !doc.JObject? ==> results == []
    ensures results == ParsedItems(doc, key, toItem)
  {
    results := [];
    if !doc.JObject? {
      return;
    }
    var elements := ToArray(Field(doc, key));
    var k := 0;
    while k < |elements|
      invariant 0 <= k <= |elements|
      invariant |results| == k
      invariant forall i :: 0 <= i < k ==> results[i] == toItem(elements[i])
      decreases |elements| - k
    {
      results := results + [toItem(elements[k])];
      k := k + 1;
    }
  }

  /** Search::parseNpmResults. */
  method ParseNpmResults(doc: Json) returns (results: seq<FeatureItem>)
    ensures |results| == |Elements(doc, "objects")|
    ensures forall i :: 0 <= i < |results| ==> results[i] == NpmItem(Elements(doc, "objects")[i])
  {
    results := ParseResults(doc, "objects", NpmItem);
  }

  /** Search::parseCargoResults. */
  method ParseCargoResults(doc: Json) returns (results: seq<FeatureItem>)
    ensures |results| == |Elements(doc, "crates")|
    ensures forall i :: 0 <= i < |results| ==> results[i] == CargoItem(Elements(doc, "crates")[i])
  {
    results := ParseResults(doc, "crates", CargoItem);
  }

  /** Search::parseGitHubResults. */
  method ParseGitHubResults(doc: Json) returns (results: seq<FeatureItem>)
    ensures |results| == |Elements(doc, "items")|
    ensures forall i :: 0 <= i < |results| ==> results[i] == GitHubItem(Elements(doc, "items")[i])
  {
    results := ParseResults(doc, "items", GitHubItem);
  }

  /** With a metric, the subtitle is the metric, a bullet and the description. */
  predicate MetricThenDescription(subtitle: string, description: string) {
    |subtitle| >= |description| + 4
    && subtitle[|subtitle| - |description|..] == description
    && subtitle[|subtitle| - |description| - 3..|subtitle| - |description|] == " \U{2022} "
  }

  lemma CreateWithMetric(name: string, description: string, url: string, metric: string)
    requires metric != []
    ensures MetricThenDescription(CreateFeatureItem(name, description, url, metric).subtitle, description)
  {
    var s := metric + " \U{2022} " + description;
    assert s[|s| - |description|..] == description;
    assert s[|s| - |description| - 3..|s| - |description|] == " \U{2022} ";
  }

  /** Every parser shows a non-empty metric before the truncated description. */
  lemma ParsedSubtitles(v: Json)
    ensures MetricThenDescription(NpmItem(v).subtitle, Truncate(ToText(Field(Field(v, "package"), "description"))))
    ensures MetricThenDescription(CargoItem(v).subtitle, Truncate(ToText(Field(v, "description"))))
    ensures MetricThenDescription(GitHubItem(v).subtitle, Truncate(ToText(Field(v, "description"))))
  {
    var pkg := Field(v, "package");
    CreateWithMetric(ToText(Field(pkg, "name")) + " v" + ToText(Field(pkg, "version")),
                     Truncate(ToText(Field(pkg, "description"))),
                     "https://www.npmjs.com/package/" + ToText(Field(pkg, "name")),
                     IntToString(ToInt(Field(Field(v, "downloads"), "monthly"))) + " downloads");
    CreateWithMetric(ToText(Field(v, "name")) + " v" + ToText(Field(v, "max_version")),
                     Truncate(ToText(Field(v, "description"))),
                     "https://crates.io/crates/" + ToText(Field(v, "name")),
                     IntToString(ToInt(Field(v, "downloads"))) + " downloads");
    CreateWithMetric(ToText(Field(v, "full_name")), Truncate(ToText(Field(v, "description"))),
                     ToText(Field(v, "html_url")),
                     "\U{2B50} " + IntToString(ToInt(Field(v, "stargazers_count"))));
  }

  // ---------------------------------------------------------------- cache

  const MaxCacheEntries: nat := 250
  const CacheExpireHours: nat := 24
  /** An entry is served while it is younger than this many seconds. */
  const ExpirySeconds: nat := CacheExpireHours * 3600
  /** The debounce interval of the API timer, in milliseconds. */
  const SearchDebounceMs: nat := 200

  /** CacheEntry; `lastModified` in seconds since the epoch. */
  datatype CacheEntry = CacheEntry(cacheType: string, query: string, lastModified: int, results: seq<FeatureItem>)

  /** The key "type:query". */
  function CacheKey(cacheType: string, query: string): string {
    cacheType + ":" + query
  }

  predicate NoColon(s: string) {
    forall i :: 0 <= i < |s| ==> s[i] != ':'
  }

  /** For cache types without a colon (all three are) the key determines type and query. */
  lemma CacheKeyInjective(t1: string, q1: string, t2: string, q2: string)
    requires NoColon(t1) && NoColon(t2)
    requires CacheKey(t1, q1) == CacheKey(t2, q2)
    ensures t1 == t2 && q1 == q2
  {
    var k := CacheKey(t1, q1);
    assert k[..|t1|] == t1 && k[|t1|] == ':' && k[|t1| + 1..] == q1;
    assert k[..|t2|] == t2 && k[|t2|] == ':' && k[|t2| + 1..] == q2;
  }

  predicate IsFresh(e: CacheEntry, now: int) {
    now - e.lastModified < ExpirySeconds
  }

  /** What getCachedResults returns for `key` at time `now`. */
  function Lookup(cache: map<string, CacheEntry>, key: string, now: int): (r: seq<FeatureItem>)
    ensures r != [] ==> key in cache && IsFresh(cache[key], now) && r == cache[key].results
    ensures key in cache && IsFresh(cache[key], now) ==> r == cache[key].results
  {
    if key in cache && IsFresh(cache[key], now) then cache[key].results else []
  }

  /** The cache after that lookup: an expired entry has been removed. */
  function AfterLookup(cache: map<string, CacheEntry>, key: string, now: int): (c: map<string, CacheEntry>)
    ensures key in cache && !IsFresh(cache[key], now) ==> key !in c
    ensures forall k :: k != key ==> (k in c <==> k in cache)
    ensures forall k :: k in c ==> k in cache && c[k] == cache[k]
  {
    if key in cache && !IsFresh(cache[key], now) then cache - {key} else cache
  }

  /** `k` holds an entry with the smallest timestamp. */
  predicate IsOldest(cache: map<string, CacheEntry>, k: string) {
    k in cache && forall j :: j in cache ==> cache[k].lastModified <= cache[j].lastModified
  }

  /** What cleanupCache may do. At or below the cap nothing. Above it, the scan keeps the first
      entry strictly older than its running minimum, starting from `now`: so nothing is removed
      when no entry is older than now, and otherwise one oldest entry, unless its key is empty. */
  ghost predicate Evicted(before: map<string, CacheEntry>, after: map<string, CacheEntry>, now: int) {
    if |before| <= MaxCacheEntries then after == before
    else if forall j :: j in before ==> before[j].lastModified >= now then after == before
    else exists k ::
      IsOldest(before, k) && before[k].lastModified < now
      && after == (if k == [] then before else before - {k})
  }

  /** An eviction removes at most one entry and changes none; above the cap, with an entry older
      than now and no empty key, it removes exactly one. */
  lemma EvictionRemovesAtMostOne(before: map<string, CacheEntry>, after: map<string, CacheEntry>, now: int)
    requires Evicted(before, after, now)
    ensures forall k :: k in after ==> k in before && after[k] == before[k]
    ensures |after| >= |before| - 1
    ensures (|before| > MaxCacheEntries && (exists j :: j in before && before[j].lastModified < now)
             && [] !in before) ==> |after| == |before| - 1
  {
    if |before| > MaxCacheEntries && !(forall j :: j in before ==> before[j].lastModified >= now) {
      var k :| IsOldest(before, k) && before[k].lastModified < now
        && after == (if k == [] then before else before - {k});
      if k != [] {
        assert before.Keys - {k} == after.Keys;
        assert |after.Keys| == |before.Keys| - 1;
      }
    }
  }

  // ---------------------------------------------------------------- cache file

  /** [title, subtitle, data]. */
  function ItemRecord(it: FeatureItem): Json {
    JArray([JString(it.title), JString(it.subtitle), JString(it.data)])
  }

  function ItemRecords(items: seq<FeatureItem>): (r: seq<Json>)
    ensures |r| == |items| && forall i :: 0 <= i < |items| ==> r[i] == ItemRecord(items[i])
  {
    seq(|items|, i requires 0 <= i < |items| => ItemRecord(items[i]))
  }

  /** [type, query, seconds since the epoch, [items]]. */
  function EntryRecord(e: CacheEntry): Json {
    JArray([JString(e.cacheType), JString(e.query), JNumber(e.lastModified), JArray(ItemRecords(e.results))])
  }

  /** Search::saveCache: one record per key. */
  function SerializeCache(cache: map<string, CacheEntry>): (doc: Json)
    ensures doc.JObject? && doc.fields.Keys == cache.Keys
  {
    JObject(map k | k in cache :: EntryRecord(cache[k]))
  }

  /** An item record with at least three fields, as loadCache rebuilds it. */
  function LoadItem(v: Json): Option<FeatureItem> {
    var a := ToArray(v);
    if |a| >= 3 then Some(CreateFeatureItem(ToText(a[0]), ToText(a[1]), ToText(a[2]), "")) else None
  }

  /** The items of an entry record, skipping item records that are too short. */
  function LoadItems(vs: seq<Json>): (r: seq<FeatureItem>)
    ensures |r| <= |vs|
  {
    if vs == [] then []
    else
      var prefix := LoadItems(vs[..|vs| - 1]);
      match LoadItem(vs[|vs| - 1])
      case Some(it) => prefix + [it]
      case None => prefix
  }

  /** An entry record with at least four fields. */
  function LoadEntry(v: Json): Option<CacheEntry> {
    var a := ToArray(v);
    if |a| >= 4 then Some(CacheEntry(ToText(a[0]), ToText(a[1]), ToInt(a[2]), LoadItems(ToArray(a[3]))))
    else None
  }

  /** The entries loadCache reads from a document, by key. */
  function LoadedEntries(doc: Json): (m: map<string, CacheEntry>)
    ensures doc.JObject? ==> forall k :: k in m <==> k in doc.fields && LoadEntry(doc.fields[k]).Some?
    ensures !doc.JObject? ==> m == map[]
  {
    if doc.JObject? then
      map k | k in doc.fields && LoadEntry(doc.fields[k]).Some? :: LoadEntry(doc.fields[k]).value
    else map[]
  }

  /** An item as it comes back from the cache file: title, subtitle and data survive, icon and
      type are set to the values every cached item has. */
  function ReloadedItem(it: FeatureItem): FeatureItem {
    FeatureItem(it.title, it.subtitle, "applications-development", it.data, "search")
  }

  /** An entry as it comes back: a timestamp outside the 32-bit range of QJsonValue::toInt is
      read back as 0. */
  function Reloaded(e: CacheEntry): CacheEntry {
    CacheEntry(e.cacheType, e.query, ToInt(JNumber(e.lastModified)), ReloadedItems(e.results))
  }

  function ReloadedItems(items: seq<FeatureItem>): (r: seq<FeatureItem>)
    ensures |r| == |items| && forall i :: 0 <= i < |items| ==> r[i] == ReloadedItem(items[i])
  {
    seq(|items|, i requires 0 <= i < |items| => ReloadedItem(items[i]))
  }

  lemma LoadItemRecord(it: FeatureItem)
    ensures LoadItem(ItemRecord(it)) == Some(ReloadedItem(it))
  {
    var a := ToArray(ItemRecord(it));
    assert |a| == 3 && ToText(a[0]) == it.title && ToText(a[1]) == it.subtitle && ToText(a[2]) == it.data;
  }

  lemma LoadItemsSnoc(vs: seq<Json>, it: FeatureItem)
    ensures LoadItems(vs + [ItemRecord(it)]) == LoadItems(vs) + [ReloadedItem(it)]
  {
    var all := vs + [ItemRecord(it)];
    assert all[..|vs|] == vs;
    LoadItemRecord(it);
  }

  lemma {:induction false} LoadItemRecords(items: seq<FeatureItem>)
    ensures LoadItems(ItemRecords(items)) == ReloadedItems(items)
  {
    if items != [] {
      var n := |items| - 1;
      var init := items[..n];
      LoadItemRecords(init);
      RecordsSnoc(items);
      LoadItemsSnoc(ItemRecords(init), items[n]);
    }
  }

  lemma RecordsSnoc(items: seq<FeatureItem>)
    requires items != []
    ensures var n := |items| - 1;
      ItemRecords(items) == ItemRecords(items[..n]) + [ItemRecord(items[n])]
      && ReloadedItems(items) == ReloadedItems(items[..n]) + [ReloadedItem(items[n])]
  {
  }

  lemma LoadEntryRecord(e: CacheEntry)
    ensures LoadEntry(EntryRecord(e)) == Some(Reloaded(e))
  {
    var a := ToArray(EntryRecord(e));
    assert |a| == 4 && ToArray(a[3]) == ItemRecords(e.results);
    assert ToText(a[0]) == e.cacheType && ToText(a[1]) == e.query;
    LoadItemRecords(e.results);
  }

  /** Every entry of a cache as it comes back from the file. */
  function ReloadedCache(cache: map<string, CacheEntry>): (r: map<string, CacheEntry>)
    ensures r.Keys == cache.Keys && forall k :: k in cache ==> r[k] == Reloaded(cache[k])
  {
    map k | k in cache :: Reloaded(cache[k])
  }

  /** Saving and loading gives every entry back with its items' title, subtitle and data. */
  lemma CacheFileRoundTrip(cache: map<string, CacheEntry>)
    ensures LoadedEntries(SerializeCache(cache)) == ReloadedCache(cache)
  {
    var loaded := LoadedEntries(SerializeCache(cache));
    var r := ReloadedCache(cache);
    LoadedKeys(cache);
    forall k | k in loaded ensures loaded[k] == r[k] {
      ReloadedAt(cache, k);
    }
    SameEntries(loaded, r);
  }

  lemma LoadedKeys(cache: map<string, CacheEntry>)
    ensures LoadedEntries(SerializeCache(cache)).Keys == cache.Keys
  {
    forall k | k in cache ensures k in LoadedEntries(SerializeCache(cache)) {
      ReloadedAt(cache, k);
    }
  }

  lemma SameEntries(a: map<string, CacheEntry>, b: map<string, CacheEntry>)
    requires a.Keys == b.Keys && forall k :: k in a ==> a[k] == b[k]
    ensures a == b
  {
  }

  lemma ReloadedAt(cache: map<string, CacheEntry>, k: string)
    requires k in cache
    ensures var loaded := LoadedEntries(SerializeCache(cache));
      k in loaded && loaded[k] == Reloaded(cache[k])
  {
    var doc := SerializeCache(cache);
    assert doc.fields[k] == EntryRecord(cache[k]);
    LoadEntryRecord(cache[k]);
    LoadedAt(doc, k);
  }

  /** An entry that the file can hold exactly. */
  predicate Restorable(e: CacheEntry) {
    IntMin <= e.lastModified <= IntMax
    && forall i :: 0 <= i < |e.results| ==>
      e.results[i].icon == "applications-development" && e.results[i].itemType == "search"
  }

  lemma ReloadedRestorable(e: CacheEntry)
    requires Restorable(e)
    ensures Reloaded(e) == e
  {
    assert ReloadedItems(e.results) == e.results;
  }

  /** A cache of restorable entries is saved and loaded unchanged. */
  lemma CacheFileRoundTripExact(cache: map<string, CacheEntry>)
    requires forall k :: k in cache ==> Restorable(cache[k])
    ensures LoadedEntries(SerializeCache(cache)) == cache
  {
    CacheFileRoundTrip(cache);
    forall k | k in cache ensures ReloadedCache(cache)[k] == cache[k] {
      ReloadedRestorable(cache[k]);
    }
    assert ReloadedCache(cache) == cache;
  }

  /** A timestamp past 2^31 - 1 seconds (January 2038) reloads as the epoch, so the entry is
      then expired at any time a day or more after 1970. */
  lemma TimestampPast2038Expires(e: CacheEntry, now: int)
    requires e.lastModified == IntMax + 1 && now >= ExpirySeconds
    ensures Reloaded(e).lastModified == 0 && !IsFresh(Reloaded(e), now)
  {
  }

  // ---------------------------------------------------------------- execute

  /** Search::execute: a search item opens its URL; any other item does nothing. */
  function Execute(item: FeatureItem): (e: Effect)
    ensures e.OpenUrl? <==> item.itemType == "search"
    ensures e.OpenUrl? ==> e.url == item.data
    ensures !e.OpenUrl? ==> e == NoEffect
  {
    if item.itemType == "search" then OpenUrl(item.data) else NoEffect
  }

  /** Every item carries the kind the provider builds: a search item with the development icon. */
  predicate IsSearchItem(it: FeatureItem) {
    it.icon == "applications-development" && it.itemType == "search"
  }

  predicate AllSearchItems(items: seq<FeatureItem>) {
    forall i :: 0 <= i < |items| ==> IsSearchItem(items[i])
  }

  predicate CacheOfSearchItems(cache: map<string, CacheEntry>) {
    forall k :: k in cache ==> AllSearchItems(cache[k].results)
  }

  lemma {:induction false} LoadedItemsAreSearchItems(vs: seq<Json>)
    ensures AllSearchItems(LoadItems(vs))
  {
    if vs != [] {
      LoadedItemsAreSearchItems(vs[..|vs| - 1]);
    }
  }

  lemma LoadedEntriesAreSearchItems(doc: Json)
    ensures CacheOfSearchItems(LoadedEntries(doc))
  {
    forall k | k in LoadedEntries(doc) ensures AllSearchItems(LoadedEntries(doc)[k].results) {
      LoadedItemsAreSearchItems(ToArray(ToArray(doc.fields[k])[3]));
    }
  }

  // ---------------------------------------------------------------- answering a query

  /** The provider wants the API path: a remainder, an API and a cache type. */
  predicate UsesApi(p: Provider, rest: string) {
    rest != [] && p.hasApi && p.cacheType != []
  }

  /** The cache type and query that search consults for `query`, if any. */
  function ConsultedKey(ps: seq<Provider>, query: string): (r: Option<(string, string)>)
    ensures r.Some? ==> Dispatch(ps, query).Some?
  {
    match Dispatch(ps, query)
    case None => None
    case Some(i) =>
      var p := ps[i];
      var rest := ExtractSearchQuery(query, p.shortcut);
      if UsesApi(p, rest) then Some((p.cacheType, rest)) else None
  }

  /** The cached results search shows for `query`. */
  function CachedPart(ps: seq<Provider>, cache: map<string, CacheEntry>, query: string, now: int): seq<FeatureItem> {
    match ConsultedKey(ps, query)
    case None => []
    case Some(k) => Lookup(cache, CacheKey(k.0, k.1), now)
  }

  /** What Search::search returns: the selected provider's item, followed by the fresh cached
      results of its API search when there are any. */
  function Answer(ps: seq<Provider>, cache: map<string, CacheEntry>, query: string, now: int): seq<FeatureItem> {
    if query == [] then []
    else match Dispatch(ps, query)
      case None => []
      case Some(i) =>
        [LocalItem(ps[i], ExtractSearchQuery(query, ps[i].shortcut))]
        + CachedPart(ps, cache, query, now)
  }

  /** The query selects no provider, or the first one; the answer is empty exactly when there is
      none, starts with that provider's item, and holds only cached items after it. */
  lemma AnswerSpec(ps: seq<Provider>, cache: map<string, CacheEntry>, query: string, now: int)
    ensures query == [] ==> Answer(ps, cache, query, now) == []
    ensures Answer(ps, cache, query, now) == [] <==> Dispatch(ps, query).None?
    ensures Dispatch(ps, query).Some? ==>
      var i := Dispatch(ps, query).value;
      var rest := ExtractSearchQuery(query, ps[i].shortcut);
      var r := Answer(ps, cache, query, now);
      (forall j :: 0 <= j < i ==> !Selects(ps[j], query))
      && r[0] == LocalItem(ps[i], rest)
      && (!UsesApi(ps[i], rest) ==> r == [r[0]])
      && (UsesApi(ps[i], rest) ==>
            r[1..] == Lookup(cache, CacheKey(ps[i].cacheType, rest), now))
  {
  }

  /** With a cache of search items, everything search returns is a search item, so executing any
      of them opens its URL. */
  lemma AnswerOpensUrls(ps: seq<Provider>, cache: map<string, CacheEntry>, query: string, now: int)
    requires CacheOfSearchItems(cache)
    ensures forall j :: 0 <= j < |Answer(ps, cache, query, now)| ==>
      Execute(Answer(ps, cache, query, now)[j]) == OpenUrl(Answer(ps, cache, query, now)[j].data)
  {
    var r := Answer(ps, cache, query, now);
    if r != [] {
      var c := CachedPart(ps, cache, query, now);
      assert r[1..] == c;
      forall j | 0 <= j < |r| ensures r[j].itemType == "search" {
        if j > 0 {
          assert r[j] == c[j - 1];
        }
      }
    }
  }

  // ---------------------------------------------------------------- requests and replies

  const UserAgent := "rnux-app-launcher/1.0"
  const GitHubAccept := "application/vnd.github.v3+json"

  /** A request as performApiSearch builds it: the URL and the raw headers it sets. */
  datatype Request = Request(url: string, userAgent: string, accept: Option<string>)

  /** The request for `q` to provider `p`; a provider without an API URL gets the empty URL. */
  function ApiRequest(p: Provider, q: string): Request {
    var url := match p.apiUrl case Some(t) => t.Fill(PercentEncode(q)) case None => "";
    Request(url, UserAgent, if p.shortcut == "gh" then Some(GitHubAccept) else None)
  }

  /** Every request names the launcher; only GitHub requests ask for its v3 media type; the query
      is recoverable from the URL of a provider with an API URL. */
  lemma ApiRequestSpec(p: Provider, q: string)
    ensures ApiRequest(p, q).userAgent == UserAgent
    ensures ApiRequest(p, q).accept.Some? <==> p.shortcut == "gh"
    ensures ApiRequest(p, q).accept.Some? ==> ApiRequest(p, q).accept.value == GitHubAccept
    ensures p.apiUrl.Some? ==>
      var t := p.apiUrl.value;
      var url := ApiRequest(p, q).url;
      |t.before| + |t.after| <= |url| && StartsWith(url, t.before)
      && Utf8.DecodeFrom(DecodeBytes(url[|t.before|..|url| - |t.after|])) == q
  {
    if p.apiUrl.Some? {
      var t := p.apiUrl.value;
      var e := PercentEncode(q);
      var url := t.Fill(e);
      assert url[|t.before|..|url| - |t.after|] == e;
      PercentEncodeInverse(q);
    }
  }

  /** The parser onApiResponse picks from the reply's URL. */
  datatype Api = NpmApi | CargoApi | GitHubApi | UnknownApi

  /** The first marker the URL contains decides. */
  function Route(url: string): (a: Api)
    ensures a == NpmApi <==> Contains(url, NpmMarker)
    ensures a == CargoApi <==> !Contains(url, NpmMarker) && Contains(url, CargoMarker)
    ensures a == GitHubApi <==>
      !Contains(url, NpmMarker) && !Contains(url, CargoMarker) && Contains(url, GitHubMarker)
  {
    if Contains(url, NpmMarker) then NpmApi
    else if Contains(url, CargoMarker) then CargoApi
    else if Contains(url, GitHubMarker) then GitHubApi
    else UnknownApi
  }

  /** The cache type a reply's results are stored under. */
  function ApiCacheType(a: Api): string {
    match a
    case NpmApi => "npm"
    case CargoApi => "cargo"
    case GitHubApi => "github"
    case UnknownApi => ""
  }

  /** The results of a successful reply for a request to `url`. */
  function ReplyResults(url: string, body: Json): seq<FeatureItem> {
    match Route(url)
    case NpmApi => ParsedItems(body, "objects", NpmItem)
    case CargoApi => ParsedItems(body, "crates", CargoItem)
    case GitHubApi => ParsedItems(body, "items", GitHubItem)
    case UnknownApi => []
  }

  /** The parser onApiResponse picks for the URL the reply came from. */
  method ParseReply(url: string, body: Json) returns (results: seq<FeatureItem>)
    ensures results == ReplyResults(url, body)
  {
    results := [];
    var api := Route(url);
    if api == NpmApi {
      results := ParseNpmResults(body);
    } else if api == CargoApi {
      results := ParseCargoResults(body);
    } else if api == GitHubApi {
      results := ParseGitHubResults(body);
    }
  }

  lemma ReplyResultsAreSearchItems(url: string, body: Json)
    ensures AllSearchItems(ReplyResults(url, body))
  {
  }

  /** The API URL starts with `https://` and then `marker`. */
  lemma RoutedByHost(p: Provider, q: string, marker: string)
    requires p.apiUrl.Some? && 8 + |marker| <= |p.apiUrl.value.before|
    requires p.apiUrl.value.before[8..8 + |marker|] == marker
    ensures Contains(ApiRequest(p, q).url, marker)
  {
    var t := p.apiUrl.value;
    var url := ApiRequest(p, q).url;
    assert url[..|t.before|] == t.before;
    assert url[8..8 + |marker|] == t.before[8..8 + |marker|];
    ContainsAt(url, marker, 8);
  }

  /** A request to the npm registry is always answered by the npm parser; a request to crates.io
      or GitHub is never left unparsed. */
  lemma OwnRequestsRouted(q: string)
    ensures Route(ApiRequest(NpmProvider, q).url) == NpmApi
    ensures Route(ApiRequest(CargoProvider, q).url) in {NpmApi, CargoApi}
    ensures Route(ApiRequest(GitHubProvider, q).url) in {NpmApi, CargoApi, GitHubApi}
  {
    RoutedByHost(NpmProvider, q, NpmMarker);
    RoutedByHost(CargoProvider, q, CargoMarker);
    RoutedByHost(GitHubProvider, q, GitHubMarker);
  }

  lemma NpmMarkerUnreserved()
    ensures forall i :: 0 <= i < |NpmMarker| ==> IsUnreserved(NpmMarker[i] as int)
  {
  }

  /** The reply is routed by what its URL contains, and the query is part of the URL: a crates.io
      search for "registry.npmjs.org" is parsed as an npm reply and cached as "npm". */
  lemma QueryTextSteersRouting()
    ensures Route(ApiRequest(CargoProvider, NpmMarker).url) == NpmApi
    ensures ApiCacheType(Route(ApiRequest(CargoProvider, NpmMarker).url)) == "npm"
  {
    NpmMarkerUnreserved();
    UnreservedUnchanged(NpmMarker);
    var t := CargoProvider.apiUrl.value;
    var url := ApiRequest(CargoProvider, NpmMarker).url;
    assert url == t.before + NpmMarker + t.after;
    assert url[|t.before|..|t.before| + |NpmMarker|] == NpmMarker;
    ContainsAt(url, NpmMarker, |t.before|);
  }

  // ---------------------------------------------------------------- the provider object

  /** The loop of Search::search and Search::onSearchTimeout that stops at the first provider
      the query selects. */
  method SelectProvider(ps: seq<Provider>, query: string) returns (index: Option<nat>)
    ensures index == Dispatch(ps, query)
  {
    var k := 0;
    while k < |ps|
      invariant 0 <= k <= |ps|
      invariant FirstSelecting(ps, query, k) == Dispatch(ps, query)
      decreases |ps| - k
    {
      if StartsWithIgnoringCase(query, ps[k].shortcut + " ") {
        return Some(k);
      }
      k := k + 1;
    }
    return None;
  }

  /** Search::parseEntry as loadCache does it inline: the record's item loop. */
  method ReadEntry(v: Json) returns (entry: Option<CacheEntry>)
    ensures entry == LoadEntry(v)
  {
    var compact := ToArray(v);
    if |compact| < 4 {
      return None;
    }
    var records := ToArray(compact[3]);
    var results: seq<FeatureItem> := [];
    var k := 0;
    while k < |records|
      invariant 0 <= k <= |records|
      invariant results == LoadItems(records[..k])
      decreases |records| - k
    {
      assert records[..k + 1][..k] == records[..k];
      var item := ToArray(records[k]);
      if |item| >= 3 {
        results := results + [CreateFeatureItem(ToText(item[0]), ToText(item[1]), ToText(item[2]), "")];
      }
      k := k + 1;
    }
    assert records[..k] == records;
    entry := Some(CacheEntry(ToText(compact[0]), ToText(compact[1]), ToInt(compact[2]), results));
  }

  /** Search: the provider table, the result cache, the debounce state and the API requests.
      Requests are numbered in the order they are issued; each one was aborted, was answered,
      or is the outstanding reply. */
  class SearchFeature {
    /** m_providers, filled from the fixed table. */
    const providers: seq<Provider>
    var cache: map<string, CacheEntry>
    var currentQuery: string
    var activeSearchType: string
    var activeSearchQuery: string
    /** The single-shot debounce timer is running. */
    var timerArmed: bool
    /** Every request performApiSearch issued, by token. */
    var requests: seq<Request>
    /** m_currentReply: the token of the outstanding request. */
    var pending: Option<nat>
    var aborted: set<nat>
    var answered: set<nat>
    var currentResults: seq<FeatureItem>

    ghost predicate Valid()
      reads this
    {
      CacheOfSearchItems(cache)
      && AllSearchItems(currentResults)
      && (pending.Some? ==> pending.value == |requests| - 1 && pending.value !in aborted + answered)
      && (forall i :: 0 <= i < |requests| && pending != Some(i) ==> i in aborted + answered)
      && (forall i :: i in aborted + answered ==> i < |requests|)
    }

    /** The request `i` has neither been aborted nor answered. */
    ghost predicate Outstanding(i: nat)
      reads this
    {
      i < |requests| && i !in aborted && i !in answered
    }

    /** At most one request is outstanding: the current reply. */
    lemma AtMostOneOutstanding(i: nat)
      requires Valid()
      ensures Outstanding(i) <==> pending == Some(i)
    {
    }

    /** Search::Search: the table, an empty state, and the cache file loaded; `file` is None
        when the file cannot be opened. */
    constructor(file: Option<Json>, now: int)
      ensures Valid()
      ensures file.Some? && file.value.JObject? ==> Evicted(LoadedEntries(file.value), cache, now)
      ensures !(file.Some? && file.value.JObject?) ==> cache == map[]
      ensures currentQuery == [] && activeSearchType == [] && activeSearchQuery == [] && !timerArmed
      ensures requests == [] && pending == None && currentResults == []
      ensures providers == Providers
    {
      providers := Providers;
      cache := map[];
      currentQuery := [];
      activeSearchType := [];
      activeSearchQuery := [];
      timerArmed := false;
      requests := [];
      pending := None;
      aborted := {};
      answered := {};
      currentResults := [];
      new;
      if file.Some? && file.value.JObject? {
        assert map[] + LoadedEntries(file.value) == LoadedEntries(file.value);
      }
      LoadCache(file, now);
    }

    /** Search::search. */
    method Search(query: string, now: int) returns (results: seq<FeatureItem>)
      requires Valid()
      modifies this
      ensures Valid()
      ensures results == Answer(providers, old(cache), query, now)
      ensures ConsultedKey(providers, query).None? ==> cache == old(cache)
      ensures ConsultedKey(providers, query).Some? ==>
        cache == AfterLookup(old(cache), CacheKey(ConsultedKey(providers, query).value.0, ConsultedKey(providers, query).value.1), now)
      ensures var arms := ConsultedKey(providers, query).Some? && CachedPart(providers, old(cache), query, now) == []
                         && old(currentQuery) != query;
        && (arms ==> currentQuery == query && timerArmed
                     && activeSearchType == ConsultedKey(providers, query).value.0
                     && activeSearchQuery == ConsultedKey(providers, query).value.1)
        && (!arms ==> currentQuery == old(currentQuery) && timerArmed == old(timerArmed)
                      && activeSearchType == old(activeSearchType)
                      && activeSearchQuery == old(activeSearchQuery))
      ensures requests == old(requests) && pending == old(pending) && aborted == old(aborted)
      ensures answered == old(answered) && currentResults == old(currentResults)
    {
      results := [];
      if query == [] {
        return;
      }
      var index := SelectProvider(providers, query);
      if index.None? {
        return;
      }
      var p := providers[index.value];
      var rest := ExtractSearchQuery(query, p.shortcut);
      results := [LocalItem(p, rest)];
      if UsesApi(p, rest) {
        var cached := GetCachedResults(p.cacheType, rest, now);
        if cached != [] {
          results := results + cached;
          return;
        }
        if currentQuery != query {
          StartTimer(query, p.cacheType, rest);
        }
      }
    }

    /** The API branch of search: the query becomes the current one and the timer is
        (re)started. */
    method StartTimer(query: string, cacheType: string, rest: string)
      requires Valid()
      modifies this
      ensures Valid()
      ensures currentQuery == query && activeSearchType == cacheType && activeSearchQuery == rest
      ensures timerArmed
      ensures cache == old(cache) && requests == old(requests) && pending == old(pending)
      ensures aborted == old(aborted) && answered == old(answered) && currentResults == old(currentResults)
    {
      currentQuery := query;
      activeSearchType := cacheType;
      activeSearchQuery := rest;
      timerArmed := true;
    }

    /** Search::getCachedResults: the fresh entry's results; an expired entry is removed. */
    method GetCachedResults(cacheType: string, query: string, now: int) returns (results: seq<FeatureItem>)
      requires Valid()
      modifies this
      ensures Valid()
      ensures results == Lookup(old(cache), CacheKey(cacheType, query), now)
      ensures cache == AfterLookup(old(cache), CacheKey(cacheType, query), now)
      ensures currentQuery == old(currentQuery) && timerArmed == old(timerArmed)
      ensures activeSearchType == old(activeSearchType) && activeSearchQuery == old(activeSearchQuery)
      ensures requests == old(requests) && pending == old(pending) && aborted == old(aborted)
      ensures answered == old(answered) && currentResults == old(currentResults)
    {
      var key := CacheKey(cacheType, query);
      results := [];
      if key in cache {
        if now - cache[key].lastModified < ExpirySeconds {
          results := cache[key].results;
        } else {
          cache := cache - {key};
        }
      }
    }

    /** Search::setCachedResults: the entry is stored under its key, stamped `now`, and the cache
        is cleaned up when it is over the cap. */
    method SetCachedResults(cacheType: string, query: string, results: seq<FeatureItem>, now: int, cleanupNow: int)
      requires Valid() && AllSearchItems(results)
      modifies this
      ensures Valid()
      ensures Evicted(old(cache)[CacheKey(cacheType, query) := CacheEntry(cacheType, query, now, results)], cache, cleanupNow)
      ensures currentQuery == old(currentQuery) && timerArmed == old(timerArmed)
      ensures activeSearchType == old(activeSearchType) && activeSearchQuery == old(activeSearchQuery)
      ensures requests == old(requests) && pending == old(pending) && aborted == old(aborted)
      ensures answered == old(answered) && currentResults == old(currentResults)
    {
      cache := cache[CacheKey(cacheType, query) := CacheEntry(cacheType, query, now, results)];
      if |cache| > MaxCacheEntries {
        CleanupCache(cleanupNow);
      } else {
        assert Evicted(cache, cache, cleanupNow);
      }
    }

    /** Search::cleanupCache: one pass over the entries in hash order, keeping the first entry
        strictly older than the running minimum, which starts at `now`. */
    method CleanupCache(now: int)
      requires Valid()
      modifies this
      ensures Valid()
      ensures Evicted(old(cache), cache, now)
      ensures currentQuery == old(currentQuery) && timerArmed == old(timerArmed)
      ensures activeSearchType == old(activeSearchType) && activeSearchQuery == old(activeSearchQuery)
      ensures requests == old(requests) && pending == old(pending) && aborted == old(aborted)
      ensures answered == old(answered) && currentResults == old(currentResults)
    {
      if |cache| <= MaxCacheEntries {
        return;
      }
      var oldest := now;
      var oldestKey: string := [];
      var unvisited := cache.Keys;
      while unvisited != {}
        invariant unvisited <= cache.Keys
        invariant OldestSoFar(cache, cache.Keys - unvisited, oldest, oldestKey, now)
        decreases |unvisited|
      {
        var k :| k in unvisited;
        if cache[k].lastModified < oldest {
          oldest := cache[k].lastModified;
          oldestKey := k;
        }
        unvisited := unvisited - {k};
      }
      assert cache.Keys - unvisited == cache.Keys;
      if oldestKey != [] {
        cache := cache - {oldestKey};
      }
    }

    /** Search::loadCache: every key whose record has four fields is (over)written, then the
        cache is cleaned up once. A file that cannot be opened or does not hold an object changes
        nothing. */
    method LoadCache(file: Option<Json>, now: int)
      requires Valid()
      modifies this
      ensures Valid()
      ensures file.Some? && file.value.JObject? ==> Evicted(old(cache) + LoadedEntries(file.value), cache, now)
      ensures !(file.Some? && file.value.JObject?) ==> cache == old(cache)
      ensures currentQuery == old(currentQuery) && timerArmed == old(timerArmed)
      ensures activeSearchType == old(activeSearchType) && activeSearchQuery == old(activeSearchQuery)
      ensures requests == old(requests) && pending == old(pending) && aborted == old(aborted)
      ensures answered == old(answered) && currentResults == old(currentResults)
    {
      if file.None? || !file.value.JObject? {
        return;
      }
      var doc := file.value;
      LoadedEntriesAreSearchItems(doc);
      cache := MergeEntries(cache, doc);
      CleanupCache(now);
    }

    /** Search::saveCache: one record per key. */
    method SaveCache() returns (doc: Json)
      ensures doc == SerializeCache(cache)
    {
      var fields: map<string, Json> := map[];
      var unvisited := cache.Keys;
      while unvisited != {}
        invariant unvisited <= cache.Keys
        invariant fields == map k | k in cache.Keys - unvisited :: EntryRecord(cache[k])
        decreases |unvisited|
      {
        var k :| k in unvisited;
        var entry := cache[k];
        var items := WriteItems(entry.results);
        fields := fields[k := JArray([JString(entry.cacheType), JString(entry.query),
                                      JNumber(entry.lastModified), JArray(items)])];
        unvisited := unvisited - {k};
      }
      assert cache.Keys - unvisited == cache.Keys;
      doc := JObject(fields);
    }

    /** Search::onSearchTimeout: the timer has fired; the provider the current query selects is
        asked through its API when the remainder is non-empty and it has one. */
    method OnSearchTimeout()
      requires Valid()
      modifies this
      ensures Valid()
      ensures !timerArmed
      ensures var d := Dispatch(providers, old(currentQuery));
        var fires := d.Some? && providers[d.value].hasApi
                     && ExtractSearchQuery(old(currentQuery), providers[d.value].shortcut) != [];
        && (fires ==> Issued(old(requests), old(pending), old(aborted),
                             ApiRequest(providers[d.value], ExtractSearchQuery(old(currentQuery), providers[d.value].shortcut)),
                             requests, pending, aborted))
        && (!fires ==> requests == old(requests) && pending == old(pending) && aborted == old(aborted))
      ensures cache == old(cache) && currentQuery == old(currentQuery)
      ensures activeSearchType == old(activeSearchType) && activeSearchQuery == old(activeSearchQuery)
      ensures answered == old(answered) && currentResults == old(currentResults)
    {
      StopTimer();
      var index := SelectProvider(providers, currentQuery);
      if index.Some? {
        var p := providers[index.value];
        var q := ExtractSearchQuery(currentQuery, p.shortcut);
        if q != [] && p.hasApi {
          PerformApiSearch(p, q);
        }
      }
    }

    /** The single-shot timer is no longer running once it has fired. */
    method StopTimer()
      requires Valid()
      modifies this
      ensures Valid()
      ensures !timerArmed
      ensures currentQuery == old(currentQuery) && activeSearchType == old(activeSearchType)
      ensures activeSearchQuery == old(activeSearchQuery)
      ensures cache == old(cache) && requests == old(requests) && pending == old(pending)
      ensures aborted == old(aborted) && answered == old(answered) && currentResults == old(currentResults)
    {
      timerArmed := false;
    }

    /** Search::performApiSearch: the outstanding reply, if any, is aborted, and one request is
        issued and becomes the outstanding one. */
    method PerformApiSearch(p: Provider, q: string)
      requires Valid()
      modifies this
      ensures Valid()
      ensures Issued(old(requests), old(pending), old(aborted), ApiRequest(p, q), requests, pending, aborted)
      ensures cache == old(cache) && currentQuery == old(currentQuery) && timerArmed == old(timerArmed)
      ensures activeSearchType == old(activeSearchType) && activeSearchQuery == old(activeSearchQuery)
      ensures answered == old(answered) && currentResults == old(currentResults)
    {
      if pending.Some? {
        aborted := aborted + {pending.value};
        pending := None;
      }
      requests := requests + [ApiRequest(p, q)];
      pending := Some(|requests| - 1);
    }

    /** Search::onApiResponse for the outstanding reply, which succeeded when `ok`. A successful
        reply replaces the current results, and non-empty results are cached under the active
        search query, whichever query the request was for. Returns whether resultsUpdated is
        emitted. */
    method OnApiResponse(ok: bool, body: Json, now: int, cleanupNow: int) returns (updated: bool)
      requires Valid()
      modifies this
      ensures Valid()
      ensures updated <==> old(pending).Some? && ok
      ensures pending == None
      ensures old(pending).Some? ==> answered == old(answered) + {old(pending).value}
      ensures old(pending).None? ==> answered == old(answered)
      ensures var results := if updated then ReplyResults(old(requests)[old(pending).value].url, body) else [];
        && (updated ==> currentResults == results)
        && (!updated ==> currentResults == old(currentResults))
        && (results != [] ==>
              var t := ApiCacheType(Route(old(requests)[old(pending).value].url));
              Evicted(old(cache)[CacheKey(t, old(activeSearchQuery)) := CacheEntry(t, old(activeSearchQuery), now, results)],
                      cache, cleanupNow))
        && (results == [] ==> cache == old(cache))
      ensures requests == old(requests) && aborted == old(aborted)
      ensures currentQuery == old(currentQuery) && timerArmed == old(timerArmed)
      ensures activeSearchType == old(activeSearchType) && activeSearchQuery == old(activeSearchQuery)
    {
      updated := false;
      if pending.None? {
        return;
      }
      var reply := pending.value;
      pending := None;
      answered := answered + {reply};
      assert Valid();
      if !ok {
        return;
      }
      var url := requests[reply].url;
      var results := ParseReply(url, body);
      ReplyResultsAreSearchItems(url, body);
      if results != [] {
        SetCachedResults(ApiCacheType(Route(url)), activeSearchQuery, results, now, cleanupNow);
      }
      currentResults := results;
      updated := true;
    }
  }

  /** performApiSearch's effect on the request state. */
  ghost predicate Issued(requests0: seq<Request>, pending0: Option<nat>, aborted0: set<nat>, r: Request,
                         requests: seq<Request>, pending: Option<nat>, aborted: set<nat>) {
    requests == requests0 + [r]
    && pending == Some(|requests0|)
    && aborted == (if pending0.Some? then aborted0 + {pending0.value} else aborted0)
  }

  /** The state of cleanupCache's scan after visiting `visited`: either nothing older than `now`
      has been seen, or `key` holds the visited entry with the smallest timestamp. */
  ghost predicate OldestSoFar(cache: map<string, CacheEntry>, visited: set<string>, oldest: int,
                              key: string, now: int) {
    visited <= cache.Keys
    && ((oldest == now && key == [] && forall j :: j in visited ==> cache[j].lastModified >= now)
        || (key in visited && oldest == cache[key].lastModified && oldest < now
            && forall j :: j in visited ==> cache[j].lastModified >= oldest))
  }

  /** The key loop of loadCache: each record with four fields overwrites its key. */
  method MergeEntries(base: map<string, CacheEntry>, doc: Json) returns (m: map<string, CacheEntry>)
    requires doc.JObject?
    ensures m == base + LoadedEntries(doc)
  {
    m := base;
    var unvisited := doc.fields.Keys;
    ghost var visited: set<string> := {};
    MergeInit(base, doc);
    while unvisited != {}
      invariant MergeState(base, doc, visited, unvisited, m)
      decreases |unvisited|
    {
      var k :| k in unvisited;
      var entry := ReadEntry(doc.fields[k]);
      MergeAdvance(base, doc, visited, unvisited, m, k, entry);
      if entry.Some? {
        m := m[k := entry.value];
      }
      visited := visited + {k};
      unvisited := unvisited - {k};
    }
    MergeDone(base, doc, visited, m);
  }

  /** The state of loadCache's key loop: the keys in `visited` are merged into `m`, those in
      `unvisited` are left. */
  ghost predicate MergeState(base: map<string, CacheEntry>, doc: Json, visited: set<string>,
                             unvisited: set<string>, m: map<string, CacheEntry>)
    requires doc.JObject?
  {
    visited + unvisited == doc.fields.Keys && visited !! unvisited
    && m == base + Restrict(LoadedEntries(doc), visited)
  }

  lemma MergeInit(base: map<string, CacheEntry>, doc: Json)
    requires doc.JObject?
    ensures MergeState(base, doc, {}, doc.fields.Keys, base)
  {
    assert Restrict(LoadedEntries(doc), {}) == map[];
  }

  lemma MergeAdvance(base: map<string, CacheEntry>, doc: Json, visited: set<string>, unvisited: set<string>,
                     m: map<string, CacheEntry>, k: string, entry: Option<CacheEntry>)
    requires doc.JObject? && MergeState(base, doc, visited, unvisited, m) && k in unvisited
    requires k in doc.fields && entry == LoadEntry(doc.fields[k])
    ensures MergeState(base, doc, visited + {k}, unvisited - {k}, if entry.Some? then m[k := entry.value] else m)
  {
    LoadedAt(doc, k);
    MergeStep(base, LoadedEntries(doc), visited, k, entry);
  }

  lemma MergeDone(base: map<string, CacheEntry>, doc: Json, visited: set<string>, m: map<string, CacheEntry>)
    requires doc.JObject? && MergeState(base, doc, visited, {}, m)
    ensures m == base + LoadedEntries(doc)
  {
    RestrictAll(LoadedEntries(doc), visited);
  }

  lemma LoadedAt(doc: Json, k: string)
    requires doc.JObject? && k in doc.fields
    ensures k in LoadedEntries(doc) <==> LoadEntry(doc.fields[k]).Some?
    ensures k in LoadedEntries(doc) ==> LoadedEntries(doc)[k] == LoadEntry(doc.fields[k]).value
  {
  }

  /** One key of the merge: a record read from the document overrides the entry under its key. */
  lemma MergeStep(base: map<string, CacheEntry>, loaded: map<string, CacheEntry>, visited: set<string>,
                  k: string, entry: Option<CacheEntry>)
    requires entry == if k in loaded then Some(loaded[k]) else None
    ensures base + Restrict(loaded, visited + {k})
      == if entry.Some? then (base + Restrict(loaded, visited))[k := entry.value]
         else base + Restrict(loaded, visited)
  {
    RestrictStep(loaded, visited, k);
    if entry.Some? {
      OverrideUpdate(base, Restrict(loaded, visited), k, entry.value);
    }
  }

  lemma OverrideUpdate(base: map<string, CacheEntry>, r: map<string, CacheEntry>, k: string, v: CacheEntry)
    ensures base + r[k := v] == (base + r)[k := v]
  {
  }

  function Restrict(m: map<string, CacheEntry>, keys: set<string>): (r: map<string, CacheEntry>)
    ensures forall k :: k in r <==> k in m && k in keys
  {
    map k | k in m && k in keys :: m[k]
  }

  lemma RestrictStep(m: map<string, CacheEntry>, keys: set<string>, k: string)
    ensures Restrict(m, keys + {k}) == if k in m then Restrict(m, keys)[k := m[k]] else Restrict(m, keys)
  {
  }

  lemma RestrictAll(m: map<string, CacheEntry>, keys: set<string>)
    requires m.Keys <= keys
    ensures Restrict(m, keys) == m
  {
  }

  /** The item loop of saveCache. */
  method WriteItems(items: seq<FeatureItem>) returns (records: seq<Json>)
    ensures records == ItemRecords(items)
  {
    records := [];
    var k := 0;
    while k < |items|
      invariant 0 <= k <= |items|
      invariant records == ItemRecords(items[..k])
      decreases |items| - k
    {
      records := records + [JArray([JString(items[k].title), JString(items[k].subtitle), JString(items[k].data)])];
      k := k + 1;
    }
    assert items[..k] == items;
  }

  /** A new entry is stamped `now`, and the cleanup it triggers reads the clock again as
      `cleanupNow`. The new entry is evicted only when it is an oldest entry and strictly older
      than `cleanupNow`: so it survives when the clock has not moved on, or when another entry is
      strictly older than it. No other entry changes, and at most one goes. */
  lemma StoredEntrySurvives(before: map<string, CacheEntry>, key: string, e: CacheEntry,
                            after: map<string, CacheEntry>, cleanupNow: int)
    requires Evicted(before[key := e], after, cleanupNow)
    ensures key !in after ==> e.lastModified < cleanupNow && IsOldest(before[key := e], key)
    ensures e.lastModified >= cleanupNow ==> key in after
    ensures (exists j :: j in before && j != key && before[j].lastModified < e.lastModified) ==> key in after
    ensures key in after ==> after[key] == e
    ensures forall k :: k in after ==> k in before[key := e] && after[k] == before[key := e][k]
    ensures |after| >= |before[key := e]| - 1
  {
    var stored := before[key := e];
    EvictionRemovesAtMostOne(stored, after, cleanupNow);
    if key !in after {
      assert |stored| > MaxCacheEntries && !(forall j :: j in stored ==> stored[j].lastModified >= cleanupNow);
      var k :| IsOldest(stored, k) && stored[k].lastModified < cleanupNow
        && after == (if k == [] then stored else stored - {k});
      assert k == key;
    }
    if exists j :: j in before && j != key && before[j].lastModified < e.lastModified {
      var j :| j in before && j != key && before[j].lastModified < e.lastModified;
      assert j in stored && stored[j].lastModified < stored[key].lastModified;
      assert !IsOldest(stored, key);
    }
  }

  /** The source's clock may advance between the two readings: with every earlier entry stamped
      later than the new one (a cache file written under a clock that ran ahead), the entry just
      stored is the one cleanupCache removes. */
  lemma StoredEntryEvictedWhenNewest(before: map<string, CacheEntry>, key: string, e: CacheEntry,
                                     cleanupNow: int)
    requires key != [] && key !in before && |before| == MaxCacheEntries
    requires e.lastModified < cleanupNow
    requires forall j :: j in before ==> e.lastModified < before[j].lastModified
    ensures Evicted(before[key := e], before, cleanupNow)
  {
    var stored := before[key := e];
    assert stored.Keys == before.Keys + {key};
    assert |stored| == MaxCacheEntries + 1;
    assert IsOldest(stored, key);
    assert stored - {key} == before;
  }
}
