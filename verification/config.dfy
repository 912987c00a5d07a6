/** The settings object of the backend: the `parse_cors` validator applied to
    BACKEND_CORS_ORIGINS, the computed `all_cors_origins` and
    `SQLALCHEMY_DATABASE_URI` fields, and the `IMAGE_DB` lookup that names
    the upload directory. */
module Config {
  import opened Strings

  /** A value handed to `parse_cors`, by its Python type. */
  datatype CorsInput =
    | Text(text: string)          // a `str`
    | List(items: seq<string>)    // a `list` of origin strings
    | Other(rendered: string)     // any other value, as `str()` renders it

  /** What BACKEND_CORS_ORIGINS holds once `parse_cors` accepted a value:
      a list of origins, or a `[`-prefixed string left for later decoding. */
  datatype CorsValue =
    | Origins(items: seq<string>)
    | Raw(text: string)

  /** A validator's outcome; `Invalid` is the `ValueError` it raises. */
  datatype Result<T> = Ok(value: T) | Invalid(message: string)

  const InvalidCorsPrefix := "Invalid CORS origins: "

  /** Python's `s.startswith("[")`. */
  predicate StartsWithBracket(s: string) {
    |s| > 0 && s[0] == '['
  }

  /** Each comma-delimited piece with surrounding whitespace removed. */
  function StripPieces(pieces: seq<string>): (r: seq<string>)
    ensures |r| == |pieces|
    ensures forall k :: 0 <= k < |r| ==> IsStripOf(pieces[k], r[k], IsSpace)
  {
    seq(|pieces|, k requires 0 <= k < |pieces| => Strip(pieces[k], IsSpace))
  }

  /** `parse_cors`: a string not starting with `[` is split on every comma
      and each piece stripped; a `[`-prefixed string and a list pass through;
      anything else is rejected. */
  function ParseCors(v: CorsInput): (r: Result<CorsValue>)
    ensures v.Text? && !StartsWithBracket(v.text) ==>
      && r.Ok? && r.value.Origins?
      && |r.value.items| == multiset(v.text)[','] + 1
      && forall k :: 0 <= k < |r.value.items| ==>
           && NoEdge(r.value.items[k], IsSpace)
           && ',' !in r.value.items[k]
           && IsStripOf(Split(v.text, ',')[k], r.value.items[k], IsSpace)
    ensures v.Text? && StartsWithBracket(v.text) ==> r == Ok(Raw(v.text))
    ensures v.List? ==> r == Ok(Origins(v.items))
    ensures v.Other? ==> r == Invalid(InvalidCorsPrefix + v.rendered)
  {
    match v
    case Text(s) =>
      if !StartsWithBracket(s) then
        var pieces := Split(s, ',');
        var origins := StripPieces(pieces);
        assert forall k :: 0 <= k < |origins| ==> ',' !in origins[k] by {
          forall k | 0 <= k < |origins| ensures ',' !in origins[k] {
            SliceKeepsSepFree(pieces[k], origins[k], ',', IsSpace);
          }
        }
        Ok(Origins(origins))
      else
        Ok(Raw(s))
    case List(xs) => Ok(Origins(xs))
    case Other(x) => Invalid(InvalidCorsPrefix + x)
  }

  /** Writing origins out as a comma-separated string and parsing it back
      gives the same origins, when none holds a comma, none has surrounding
      whitespace and the first does not start with `[`. */
  lemma ParseCorsJoinRoundTrip(xs: seq<string>)
    requires |xs| > 0
    requires forall k :: 0 <= k < |xs| ==> ',' !in xs[k] && NoEdge(xs[k], IsSpace)
    requires !StartsWithBracket(xs[0])
    ensures ParseCors(Text(Join(xs, ','))) == Ok(Origins(xs))
  {
    var s := Join(xs, ',');
    if s != [] {
      JoinFirstChar(xs, ',');
    }
    assert !StartsWithBracket(s);
    SplitJoin(xs, ',');
    var origins := StripPieces(xs);
    forall k | 0 <= k < |xs| ensures origins[k] == xs[k] {
      StripClean(xs[k], IsSpace);
    }
    assert origins == xs;
    assert ParseCors(Text(s)) == Ok(Origins(StripPieces(Split(s, ','))));
  }

  /** The split branch keeps empty pieces: the empty string is one empty origin. */
  lemma ParseCorsEmptyText()
    ensures ParseCors(Text("")) == Ok(Origins([""]))
  {
    assert Split("", ',') == [""];
    assert Strip("", IsSpace) == "";
    assert StripPieces([""]) == [""];
  }

  /** The deployment tier. */
  datatype Environment = Local | Staging | Production

  /** The fields of `Settings` the core reads. */
  datatype Settings = Settings(
    apiV1Str: string,
    frontendHost: string,
    environment: Environment,
    backendCorsOrigins: CorsValue,
    projectName: string,
    sqliteDbPath: string)

  const DefaultApiV1Str := "/api/v1"
  const DefaultFrontendHost := "http://localhost:5173"

  /** The settings when no variable overrides a default; PROJECT_NAME has none. */
  function DefaultSettings(projectName: string): Settings {
    Settings(DefaultApiV1Str, DefaultFrontendHost, Local, Origins([]), projectName, "")
  }

  /** What `for origin in BACKEND_CORS_ORIGINS` visits: the list's items,
      or the characters of a string field one by one. */
  function Members(v: CorsValue): (r: seq<string>)
    ensures v.Origins? ==> r == v.items
    ensures v.Raw? ==> (forall k :: 0 <= k < |r| ==> |r[k]| == 1) && Concat(r) == v.text
  {
    match v
    case Origins(xs) => xs
    case Raw(s) => ConcatChars(s); Chars(s)
  }

  predicate IsSlash(c: char) {
    c == '/'
  }

  /** `all_cors_origins`: every configured origin with its trailing slashes
      removed, then the frontend host as given. */
  function AllCorsOrigins(st: Settings): (r: seq<string>)
    ensures |r| == |Members(st.backendCorsOrigins)| + 1
    ensures r[|r| - 1] == st.frontendHost
    ensures forall k :: 0 <= k < |r| - 1 ==>
      && |r[k]| <= |Members(st.backendCorsOrigins)[k]|
      && r[k] == Members(st.backendCorsOrigins)[k][..|r[k]|]
      && All(Members(st.backendCorsOrigins)[k][|r[k]|..], IsSlash)
      && (r[k] == [] || r[k][|r[k]| - 1] != '/')
  {
    var origins := Members(st.backendCorsOrigins);
    seq(|origins|, k requires 0 <= k < |origins| => RStrip(origins[k], IsSlash)) + [st.frontendHost]
  }

  /** Stripping trailing slashes again changes none of the configured entries. */
  lemma AllCorsOriginsStable(st: Settings, k: int)
    requires 0 <= k < |AllCorsOrigins(st)| - 1
    ensures RStrip(AllCorsOrigins(st)[k], IsSlash) == AllCorsOrigins(st)[k]
  {
  }

  /** End to end: a comma-separated BACKEND_CORS_ORIGINS of n commas yields
      n + 2 allowed origins, the frontend host last. */
  lemma CommaSeparatedOriginsCount(st: Settings, s: string)
    requires !StartsWithBracket(s)
    requires ParseCors(Text(s)).Ok? && st.backendCorsOrigins == ParseCors(Text(s)).value
    ensures |AllCorsOrigins(st)| == multiset(s)[','] + 2
    ensures AllCorsOrigins(st)[|AllCorsOrigins(st)| - 1] == st.frontendHost
  {
  }

  const SqliteScheme := "sqlite:///"

  /** `SQLALCHEMY_DATABASE_URI`: empty without a database path (an empty
      string is false in Python), else the path behind the sqlite scheme. */
  function DatabaseUri(st: Settings): (uri: string)
    ensures uri == [] <==> st.sqliteDbPath == []
    ensures uri != [] ==>
      && |uri| == |SqliteScheme| + |st.sqliteDbPath|
      && uri[..|SqliteScheme|] == SqliteScheme
      && uri[|SqliteScheme|..] == st.sqliteDbPath
  {
    if st.sqliteDbPath != [] then SqliteScheme + st.sqliteDbPath else ""
  }

  /** Different database paths never share a URI. */
  lemma DatabaseUriInjective(a: Settings, b: Settings)
    requires DatabaseUri(a) == DatabaseUri(b)
    ensures a.sqliteDbPath == b.sqliteDbPath
  {
  }

  /** The `model_config` entries the model keeps: the environment file and the image directory. */
  const DefaultModelConfig: map<string, string> := map["env_file" := "../.env", "image_db" := "../imageDB"]

  /** `IMAGE_DB()`: the `image_db` entry of the model configuration, `""` when absent. */
  function ImageDb(config: map<string, string>): string
  {
    if "image_db" in config then config["image_db"] else ""
  }

  /** The upload directory depends on the `image_db` entry alone: setting or
      removing any other entry leaves it where it was. */
  lemma ImageDbReadsOnlyItsEntry(config: map<string, string>, key: string, value: string)
    requires key != "image_db"
    ensures ImageDb(config[key := value]) == ImageDb(config)
    ensures ImageDb(config - {key}) == ImageDb(config)
  {
  }

  /** With the shipped configuration, uploads go to `../imageDB` and nothing
      beyond the frontend host is allowed by default. */
  lemma DefaultsAsShipped(projectName: string)
    ensures ImageDb(DefaultModelConfig) == "../imageDB"
    ensures AllCorsOrigins(DefaultSettings(projectName)) == [DefaultFrontendHost]
    ensures DatabaseUri(DefaultSettings(projectName)) == ""
  {
  }
}
