/**
 * The POST request that SupabaseUpsert.execute builds for one item:
 * the header map, its `Prefer` value and the target URL.
 */
module Request {

  import opened Wrappers
  import opened Text

  type Bytes = seq<bv8>

  /** The stored credential: the project URL and the service key. */
  datatype Credentials = Credentials(host: string, serviceKey: string)

  datatype HttpRequest = HttpRequest(verb: string, url: string, headers: map<string, string>, body: Bytes)

  /** The two values the node offers for `conflictResolution`. */
  const MergeDuplicates: string := "merge-duplicates"
  const IgnoreDuplicates: string := "ignore-duplicates"

  const RestPath: string := "/rest/v1/"
  const ResolutionKey: string := "resolution="
  const OnConflictKey: string := ",on-conflict="

  /** The two preferences the node sends: a resolution mode and, optionally,
      the columns that detect a conflict. */
  datatype Preference = Preference(resolution: string, onConflict: Option<string>)

  /** The `on-conflict` target: the trimmed column list, or nothing when the
      field is blank. */
  function OnConflictTarget(columns: string): (r: Option<string>)
    ensures r.None? <==> AllWhitespace(columns)
    ensures r.Some? ==> r.value == Trim(columns) && r.value != []
  {
    TrimEmptyIff(columns);
    if Trim(columns) == [] then None else Some(Trim(columns))
  }

  /** The comma-separated preference list sent in `Prefer`. */
  function RenderPrefer(p: Preference): string
  {
    ResolutionKey + RenderOptions(p)
  }

  /** The list after `resolution=`: the mode, then `,on-conflict=<columns>`
      when a conflict target is set. */
  function RenderOptions(p: Preference): string
  {
    match p.onConflict
    case None => p.resolution
    case Some(c) => p.resolution + (OnConflictKey + c)
  }

  /** Position of the first comma of `s`, or `|s|` when there is none. */
  function IndexOfComma(s: string): (k: nat)
    ensures k <= |s|
    ensures forall j :: 0 <= j < k ==> s[j] != ','
    ensures k < |s| ==> s[k] == ','
  {
    if s == [] || s[0] == ',' then 0 else 1 + IndexOfComma(s[1..])
  }

  /** `v` without the leading `key`, when `v` starts with it. */
  function StripPrefix(key: string, v: string): (r: Option<string>)
    ensures r.Some? <==> |key| <= |v| && v[..|key|] == key
    ensures r.Some? ==> v == key + r.value
  {
    if |key| <= |v| && v[..|key|] == key then
      assert v == v[..|key|] + v[|key|..];
      Some(v[|key|..])
    else None
  }

  lemma {:induction false} StripPrefixOfJoin(key: string, t: string)
    ensures StripPrefix(key, key + t) == Some(t)
  {
    assert (key + t)[..|key|] == key;
    assert (key + t)[|key|..] == t;
  }

  /** A decoder for exactly the values `RenderPrefer` produces: `resolution=`,
      then the options. It is not a reader of the comma-separated list form
      (see `SplitList`); its round trip with `RenderPrefer` shows that the
      rendering loses nothing of the mode and the conflict target. */
  function ParsePrefer(v: string): Option<Preference>
  {
    match StripPrefix(ResolutionKey, v)
    case None => None
    case Some(rest) => ParseOptions(rest)
  }

  /** The mode runs up to the first comma; what follows it must be
      `,on-conflict=` and the columns, which run to the end, commas
      included. */
  function ParseOptions(rest: string): Option<Preference>
  {
    var k := IndexOfComma(rest);
    if k == |rest| then Some(Preference(rest, None))
    else
      match StripPrefix(OnConflictKey, rest[k..])
      case None => None
      case Some(columns) => Some(Preference(rest[..k], Some(columns)))
  }

  /** A rendered preference list decodes back to the preferences it was
      made from, as long as the resolution mode holds no comma. */
  lemma {:induction false} ParseRender(p: Preference)
    requires ',' !in p.resolution
    ensures ParsePrefer(RenderPrefer(p)) == Some(p)
  {
    StripPrefixOfJoin(ResolutionKey, RenderOptions(p));
    ParseRenderOptions(p);
  }

  lemma {:induction false} ParseRenderOptions(p: Preference)
    requires ',' !in p.resolution
    ensures ParseOptions(RenderOptions(p)) == Some(p)
  {
    match p.onConflict
    case None =>
      assert p.resolution + [] == p.resolution;
      CommaAfter(p.resolution, []);
    case Some(c) =>
      var rest := p.resolution + (OnConflictKey + c);
      var k := |p.resolution|;
      CommaAfter(p.resolution, OnConflictKey + c);
      assert rest[..k] == p.resolution;
      assert rest[k..] == OnConflictKey + c;
      StripPrefixOfJoin(OnConflictKey, c);
  }

  /** The first comma of `a + b`, when `a` has none, is the first comma of `b`. */
  lemma {:induction false} CommaAfter(a: string, b: string)
    requires ',' !in a
    ensures IndexOfComma(a + b) == |a| + IndexOfComma(b)
  {
    if a != [] {
      assert (a + b)[0] == a[0];
      assert (a + b)[1..] == a[1..] + b;
      CommaAfter(a[1..], b);
    } else {
      assert a + b == b;
    }
  }

  /** Whatever the decoder accepts is exactly the rendering of what it
      decodes from it. */
  lemma {:induction false} RenderParse(v: string)
    ensures ParsePrefer(v).Some? ==> RenderPrefer(ParsePrefer(v).value) == v
  {
    match StripPrefix(ResolutionKey, v)
    case None =>
    case Some(rest) =>
      RenderParseOptions(rest);
  }

  lemma {:induction false} RenderParseOptions(rest: string)
    ensures ParseOptions(rest).Some? ==> RenderOptions(ParseOptions(rest).value) == rest
  {
    var k := IndexOfComma(rest);
    if k < |rest| {
      match StripPrefix(OnConflictKey, rest[k..])
      case None =>
      case Some(columns) =>
        var p := Preference(rest[..k], Some(columns));
        assert ParseOptions(rest) == Some(p);
        assert RenderOptions(p) == rest[..k] + rest[k..];
        assert rest[..k] + rest[k..] == rest;
    }
  }

  /** A plain split of a header value at every comma. Whitespace around the
      elements is kept and quoting is ignored, so this is not the whole list
      rule of section 7 of RFC 7230 (which drops optional whitespace around
      commas and does not split inside a quoted string). It gives the same
      elements as that rule for values whose elements are tokens with no
      whitespace next to a comma and no quote, which is the case for the
      header the node writes when the column names are such tokens. */
  function SplitList(s: string): (parts: seq<string>)
    ensures |parts| >= 1
    decreases |s|
  {
    var k := IndexOfComma(s);
    if k == |s| then [s] else [s[..k]] + SplitList(s[k + 1..])
  }

  /** Cutting `a + "," + rest`, when `a` has no comma, yields `a` and then the
      elements of `rest`. */
  lemma {:induction false} SplitListAfter(a: string, rest: string)
    requires ',' !in a
    ensures SplitList(a + [','] + rest) == [a] + SplitList(rest)
  {
    var s := a + [','] + rest;
    assert s == a + ([','] + rest);
    CommaAfter(a, [','] + rest);
    assert s[..|a|] == a;
    assert s[|a| + 1..] == rest;
  }

  lemma {:induction false} SplitListWhole(a: string)
    requires ',' !in a
    ensures SplitList(a) == [a]
  {
    assert a + [] == a;
    CommaAfter(a, []);
  }

  /** Split at every comma, a conflict target of two columns `c1,c2` falls
      apart: `c2` becomes an element of its own, apart from `on-conflict=`.
      When the mode and the columns are tokens without whitespace or quotes,
      as in the node's own `ID,email` placeholder, these are also the
      elements the RFC 7230 list rule yields. */
  lemma {:induction false} ListReaderSplitsTarget(resolution: string, c1: string, c2: string)
    requires ',' !in resolution && ',' !in c1 && ',' !in c2
    ensures SplitList(RenderPrefer(Preference(resolution, Some(c1 + [','] + c2))))
      == [ResolutionKey + resolution, OnConflictKey[1..] + c1, c2]
  {
    var key := OnConflictKey[1..];
    KeysHaveNoComma();
    Regroup(ResolutionKey, resolution, key, c1, c2);
    SplitListAfter(ResolutionKey + resolution, (key + c1) + [','] + c2);
    SplitListAfter(key + c1, c2);
    SplitListWhole(c2);
  }

  lemma KeysHaveNoComma()
    ensures ',' !in ResolutionKey
    ensures OnConflictKey == [','] + OnConflictKey[1..] && ',' !in OnConflictKey[1..]
  {
  }

  lemma {:induction false} Regroup(a: string, b: string, k: string, c1: string, c2: string)
    ensures a + (b + (([','] + k) + (c1 + [','] + c2))) == (a + b) + [','] + ((k + c1) + [','] + c2)
  {
  }

  /** The `Prefer` header: `resolution=<mode>`, extended with
      `,on-conflict=<columns.trim()>` when the trimmed columns are not empty. */
  function PreferValue(resolution: string, columns: string): (v: string)
    ensures AllWhitespace(columns) ==> v == ResolutionKey + resolution
    ensures !AllWhitespace(columns) ==> v == ResolutionKey + resolution + OnConflictKey + Trim(columns)
  {
    var target := OnConflictTarget(columns);
    var p := Preference(resolution, target);
    assert target.Some? ==> RenderPrefer(p) == ResolutionKey + resolution + OnConflictKey + target.value by {
      if target.Some? {
        Associate(ResolutionKey, resolution, OnConflictKey, target.value);
      }
    }
    RenderPrefer(p)
  }

  lemma {:induction false} Associate(a: string, b: string, c: string, d: string)
    ensures a + (b + (c + d)) == a + b + c + d
  {
  }

  /** A receiver reads back from `Prefer` the mode and the conflict target
      it was built from, as long as the mode holds no comma. */
  lemma {:induction false} PreferRoundTrip(resolution: string, columns: string)
    requires ',' !in resolution
    ensures ParsePrefer(PreferValue(resolution, columns)) == Some(Preference(resolution, OnConflictTarget(columns)))
  {
    ParseRender(Preference(resolution, OnConflictTarget(columns)));
  }

  lemma {:induction false} OfferedModesRoundTrip(columns: string)
    ensures ParsePrefer(PreferValue(MergeDuplicates, columns)) == Some(Preference(MergeDuplicates, OnConflictTarget(columns)))
    ensures ParsePrefer(PreferValue(IgnoreDuplicates, columns)) == Some(Preference(IgnoreDuplicates, OnConflictTarget(columns)))
  {
    ModesHaveNoComma();
    PreferRoundTrip(MergeDuplicates, columns);
    PreferRoundTrip(IgnoreDuplicates, columns);
  }

  lemma ModesHaveNoComma()
    ensures ',' !in MergeDuplicates && ',' !in IgnoreDuplicates
  {
  }

  lemma HeaderNamesDistinct()
    ensures "apikey" != "Authorization" && "apikey" != "Content-Type" && "apikey" != "Accept" && "apikey" != "Prefer"
    ensures "Authorization" != "Content-Type" && "Authorization" != "Accept" && "Authorization" != "Prefer"
    ensures "Content-Type" != "Accept" && "Content-Type" != "Prefer" && "Accept" != "Prefer"
  {
    assert "apikey"[0] != "Accept"[0] && "apikey"[0] != "Prefer"[0] && "Accept"[0] != "Prefer"[0];
  }

  /** The header map: exactly five entries; the key goes in `apikey` and,
      after the literal `Bearer=` (no space), in `Authorization`. */
  function Headers(apiKey: string, prefer: string): (h: map<string, string>)
    ensures h.Keys == {"apikey", "Authorization", "Content-Type", "Accept", "Prefer"}
    ensures h["apikey"] == apiKey
    ensures h["Authorization"] == "Bearer=" + h["apikey"]
    ensures h["Content-Type"] == "text/csv"
    ensures h["Accept"] == "application/json"
    ensures h["Prefer"] == prefer
  {
    HeaderNamesDistinct();
    map[
      "apikey" := apiKey,
      "Authorization" := "Bearer=" + apiKey,
      "Content-Type" := "text/csv",
      "Accept" := "application/json",
      "Prefer" := prefer
    ]
  }

  /** Replacing `Prefer` in the header map is the same as building the map
      with the new value. */
  lemma {:induction false} HeadersWithPrefer(apiKey: string, prefer: string, prefer': string)
    ensures Headers(apiKey, prefer)["Prefer" := prefer'] == Headers(apiKey, prefer')
  {
    HeaderNamesDistinct();
  }

  /** The `Authorization` value does not use the `Bearer ` scheme (with a
      space): the character after `Bearer` is `=`. */
  lemma {:induction false} AuthorizationNotBearerScheme(apiKey: string, prefer: string)
    ensures Headers(apiKey, prefer)["Authorization"][..7] != "Bearer "
  {
    assert Headers(apiKey, prefer)["Authorization"][6] == '=';
  }

  /** The target URL: the table name follows `<host>/rest/v1/` unescaped. */
  function RequestUrl(baseUrl: string, tableName: string): (u: string)
    ensures |u| == |baseUrl| + |RestPath| + |tableName|
    ensures u[..|baseUrl|] == baseUrl
    ensures u[|baseUrl|..|baseUrl| + |RestPath|] == "/rest/v1/"
    ensures u[|baseUrl| + |RestPath|..] == tableName
  {
    baseUrl + RestPath + tableName
  }

  /** Under one host, distinct tables get distinct URLs. */
  lemma {:induction false} RequestUrlInjective(baseUrl: string, t1: string, t2: string)
    ensures RequestUrl(baseUrl, t1) == RequestUrl(baseUrl, t2) ==> t1 == t2
  {
  }

  /** The request sent for one item: a POST of the attachment bytes to the
      table's URL under the credential's host, authenticated with the
      credential's key, carrying the conflict policy in `Prefer`. */
  function BuildRequest(cred: Credentials, tableName: string, resolution: string, columns: string, body: Bytes): (r: HttpRequest)
    ensures r.verb == "POST" && r.body == body
    ensures r.url == cred.host + RestPath + tableName
    ensures r.headers.Keys == {"apikey", "Authorization", "Content-Type", "Accept", "Prefer"}
    ensures r.headers["apikey"] == cred.serviceKey
    ensures r.headers["Authorization"] == "Bearer=" + cred.serviceKey
    ensures r.headers["Content-Type"] == "text/csv" && r.headers["Accept"] == "application/json"
    ensures AllWhitespace(columns) ==> r.headers["Prefer"] == ResolutionKey + resolution
    ensures !AllWhitespace(columns) ==> r.headers["Prefer"] == ResolutionKey + resolution + OnConflictKey + Trim(columns)
  {
    HttpRequest("POST", RequestUrl(cred.host, tableName), Headers(cred.serviceKey, PreferValue(resolution, columns)), body)
  }
}
