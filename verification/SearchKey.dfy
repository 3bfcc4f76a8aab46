/**
 The cache key of app/modules/search/service.py and the backend request it stands for. Equal keys mean
 equal requests, so a cached answer is never served for another search.
 */
module SearchKey {
  import opened Options
  import opened Text
  import opened UrlEncoding

  const SEARCH_CACHE_KEY_PREFIX := "search:v1"

  datatype Search = Search(
    query: Option<string>,
    category: Option<string>,
    level: Option<int>,
    duration: Option<string>,
    language: Option<string>,
    page: int,
    limit: int)

  // ---- decimal printing ------------------------------------------------------------------------------

  function Digits(n: nat): string {
    if n < 10 then [('0' as int + n) as char] else Digits(n / 10) + [('0' as int + n % 10) as char]
  }

  function Decimal(n: int): string {
    if n < 0 then "-" + Digits(-n) else Digits(n)
  }

  function ParseDigits(s: string): int {
    if s == [] then 0 else ParseDigits(s[..|s| - 1]) * 10 + (s[|s| - 1] as int - '0' as int)
  }

  function ParseDecimal(s: string): int {
    if s != [] && s[0] == '-' then -ParseDigits(s[1..]) else ParseDigits(s)
  }

  lemma {:induction false} DigitsRoundTrip(n: nat)
    ensures ParseDigits(Digits(n)) == n && Digits(n) != [] && Digits(n)[0] != '-'
  {
    var s := Digits(n);
    if n < 10 {
      assert s[..0] == [];
    } else {
      DigitsRoundTrip(n / 10);
      assert s[..|s| - 1] == Digits(n / 10);
    }
  }

  lemma DecimalRoundTrip(n: int)
    ensures ParseDecimal(Decimal(n)) == n && Decimal(n) != []
  {
    DigitsRoundTrip(if n < 0 then -n else n);
    if n < 0 {
      assert Decimal(n)[1..] == Digits(-n);
    }
  }

  // ---- the key ---------------------------------------------------------------------------------------

  /** What search_nanos passes on as the query. */
  function NormalizedQuery(s: Search): string {
    match s.query
    case None => ""
    case Some(q) => Strip(q)
  }

  /** The parameters of the key, sorted by name. */
  function KeyParams(s: Search): seq<Pair> {
    [ ("category", s.category.GetOr("")),
      ("duration", s.duration.GetOr("")),
      ("language", s.language.GetOr("")),
      ("level", if s.level.None? then "" else Decimal(s.level.value)),
      ("limit", Decimal(s.limit)),
      ("page", Decimal(s.page)),
      ("q", Strip(NormalizedQuery(s))) ]
  }

  function BuildSearchCacheKey(s: Search): string {
    SEARCH_CACHE_KEY_PREFIX + ":" + UrlEncode(KeyParams(s))
  }

  predicate LexLess(a: string, b: string) {
    if b == [] then false
    else if a == [] then true
    else a[0] < b[0] || (a[0] == b[0] && LexLess(a[1..], b[1..]))
  }

  /** The order in which the parameters are listed is the one sorted() gives. */
  lemma KeyParamsSorted(s: Search)
    ensures forall i | 0 <= i < 6 :: LexLess(KeyParams(s)[i].0, KeyParams(s)[i + 1].0)
  {
    assert LexLess("category", "duration") && LexLess("duration", "language");
    assert "language"[1..] == "anguage" && "level"[1..] == "evel" && LexLess("language", "level");
    assert "level"[1..] == "evel" && "limit"[1..] == "imit" && LexLess("level", "limit");
    assert LexLess("limit", "page") && LexLess("page", "q");
  }

  /** What two searches must share to share a key. */
  datatype Normal = Normal(
    query: string, category: string, level: Option<int>, duration: string, language: string, page: int, limit: int)

  function Normalize(s: Search): Normal {
    Normal(
      NormalizedQuery(s), s.category.GetOr(""), s.level, s.duration.GetOr(""), s.language.GetOr(""), s.page, s.limit)
  }

  /** Reading a key back. */
  function DecodeKey(key: string): Option<Normal> {
    var start := |SEARCH_CACHE_KEY_PREFIX| + 1;
    if |key| < start then None
    else
      var p := ParseQuery(key[start..]);
      if |p| != 7 then None
      else
        var level := if p[3].1 == "" then None else Some(ParseDecimal(p[3].1));
        Some(Normal(p[6].1, p[0].1, level, p[1].1, p[2].1, ParseDecimal(p[5].1), ParseDecimal(p[4].1)))
  }

  lemma DecodeInverts(s: Search)
    ensures DecodeKey(BuildSearchCacheKey(s)) == Some(Normalize(s))
  {
    hide UrlEncode, ParseQuery;
    var key, start := BuildSearchCacheKey(s), |SEARCH_CACHE_KEY_PREFIX| + 1;
    assert key[start..] == UrlEncode(KeyParams(s));
    ParseInverts(KeyParams(s));
    DecimalRoundTrip(s.page);
    DecimalRoundTrip(s.limit);
    if s.level.Some? {
      DecimalRoundTrip(s.level.value);
    }
    if s.query.Some? {
      StripIdempotent(s.query.value);
    }
  }

  // ---- the request -------------------------------------------------------------------------------------

  datatype BackendRequest = BackendRequest(query: string, filter: string, offset: int, limit: int)

  function Join(parts: seq<string>, separator: string): string {
    if parts == [] then ""
    else if |parts| == 1 then parts[0]
    else parts[0] + separator + Join(parts[1..], separator)
  }

  function Quoted(opening: string, value: string): seq<string> {
    if value == "" then [] else [opening + Replace(value, "'", "\\'") + "'"]
  }

  function LevelFilter(level: Option<int>): seq<string> {
    match level
    case Some(1) => ["competency_level = 1"]
    case Some(2) => ["competency_level = 2"]
    case Some(3) => ["competency_level = 3"]
    case _ => []
  }

  function DurationFilter(duration: string): seq<string> {
    if duration == "0-15" then ["duration_minutes >= 0 AND duration_minutes <= 15"]
    else if duration == "15-30" then ["duration_minutes > 15 AND duration_minutes <= 30"]
    else if duration == "30+" then ["duration_minutes > 30"]
    else []
  }

  function RequestFor(n: Normal): BackendRequest {
    var filters := ["status = 'published'"] + Quoted("category = '", n.category) + LevelFilter(n.level)
      + DurationFilter(n.duration) + Quoted("language = '", n.language);
    BackendRequest(n.query, Join(filters, " AND "), (n.page - 1) * n.limit, n.limit)
  }

  lemma LevelText(level: int)
    requires level in [1, 2, 3]
    ensures LevelFilter(Some(level)) == ["competency_level = " + Decimal(level)]
  {
    assert Decimal(1) == "1" && Decimal(2) == "2" && Decimal(3) == "3";
    assert "competency_level = " + "1" == "competency_level = 1";
    assert "competency_level = " + "2" == "competency_level = 2";
    assert "competency_level = " + "3" == "competency_level = 3";
  }

  /** MeilisearchClient.search up to the call: what it asks depends on the normalised parameters only. */
  method BuildRequest(s: Search) returns (r: BackendRequest)
    ensures r == RequestFor(Normalize(s))
    ensures r.query == Strip(s.query.GetOr("")) && r.limit == s.limit && r.offset == (s.page - 1) * s.limit
  {
    StripOfNothing(s);
    hide Replace, Join, Strip, Decimal;
    var filters := [];
    filters := filters + ["status = 'published'"];
    assert filters == ["status = 'published'"];
    ghost var expected := filters + Quoted("category = '", s.category.GetOr(""));
    if s.category.Some? && s.category.value != "" {
      var safeCategory := Replace(s.category.value, "'", "\\'");
      filters := filters + ["category = '" + safeCategory + "'"];
    }
    assert filters == expected;
    expected := filters + LevelFilter(s.level);
    if s.level.Some? && s.level.value in [1, 2, 3] {
      LevelText(s.level.value);
      filters := filters + ["competency_level = " + Decimal(s.level.value)];
    }
    assert filters == expected;
    expected := filters + DurationFilter(s.duration.GetOr(""));
    if s.duration.Some? && s.duration.value != "" {
      if s.duration.value == "0-15" {
        filters := filters + ["duration_minutes >= 0 AND duration_minutes <= 15"];
      } else if s.duration.value == "15-30" {
        filters := filters + ["duration_minutes > 15 AND duration_minutes <= 30"];
      } else if s.duration.value == "30+" {
        filters := filters + ["duration_minutes > 30"];
      }
    }
    assert filters == expected;
    expected := filters + Quoted("language = '", s.language.GetOr(""));
    if s.language.Some? && s.language.value != "" {
      var safeLanguage := Replace(s.language.value, "'", "\\'");
      filters := filters + ["language = '" + safeLanguage + "'"];
    }
    assert filters == expected;
    return BackendRequest(NormalizedQuery(s), Join(filters, " AND "), (s.page - 1) * s.limit, s.limit);
  }

  /** Two searches share a key exactly when their stripped queries agree and all else does, absent like empty. */
  lemma KeyInjective(a: Search, b: Search)
    ensures BuildSearchCacheKey(a) == BuildSearchCacheKey(b) <==>
      && Strip(a.query.GetOr("")) == Strip(b.query.GetOr(""))
      && a.category.GetOr("") == b.category.GetOr("") && a.level == b.level
      && a.duration.GetOr("") == b.duration.GetOr("") && a.language.GetOr("") == b.language.GetOr("")
      && a.page == b.page && a.limit == b.limit
  {
    DecodeInverts(a);
    DecodeInverts(b);
    StripOfNothing(a);
    StripOfNothing(b);
    hide Strip, BuildSearchCacheKey, DecodeKey;
    SameNormal(a, b);
  }

  lemma StripOfNothing(s: Search)
    ensures NormalizedQuery(s) == Strip(s.query.GetOr(""))
  {
  }

  lemma SameNormal(a: Search, b: Search)
    ensures Normalize(a) == Normalize(b) ==> BuildSearchCacheKey(a) == BuildSearchCacheKey(b)
  {
  }

  /** A cached answer is only ever found for the very backend request it answers. */
  lemma EqualKeysSameRequest(a: Search, b: Search)
    requires BuildSearchCacheKey(a) == BuildSearchCacheKey(b)
    ensures RequestFor(Normalize(a)) == RequestFor(Normalize(b))
  {
    DecodeInverts(a);
    DecodeInverts(b);
  }
}
