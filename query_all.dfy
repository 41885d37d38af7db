/** The `handle` operation of the SQL-Query-All action: filter the configured SQL, hand it
    to the SQL parser, merge the bound values, clamp the page, count the rows of the whole
    filtered query, fetch the page and return the result envelope. The SQL parser and the
    database connection are parameters: only what the action does with their results is
    modelled. */
module QueryAll {
  import opened Wrappers
  import opened Filter
  import opened Pagination

  /** Named values bound to a statement. */
  type Params = map<string, string>

  const CountPrefix := "SELECT COUNT(*) AS cnt FROM ("
  const CountSuffix := ") res"

  /** The action's configuration: `sql`, `limit` (after the `(int)` cast),
      `builtinFiltering` and `filteringColumns`. */
  datatype Config = Config(sql: string, limit: int, builtinFiltering: bool, filteringColumns: seq<string>)

  /** The result object: total row count, page size, start index and the page's rows. */
  datatype Envelope<Row> = Envelope(totalResults: int, itemsPerPage: int, startIndex: int, entry: seq<Row>)

  /** Handling stops when the filter compiler's `present` branch gives no query. */
  datatype Failure = FilterQueryBroken

  /** The database connection's three round-trips. */
  datatype Connection<Row> = Connection(
    fetchColumn: (string, Params) -> int,
    modifyLimitQuery: (string, int, int) -> string,
    fetchAll: (string, Params) -> seq<Row>)

  /** `array_merge` over string keys when the filter bound something: a key of both maps
      takes the filter's value. */
  function Merge(parserParams: Params, filterParams: Params): (m: Params)
    ensures m.Keys == parserParams.Keys + filterParams.Keys
    ensures forall k :: k in filterParams ==> m[k] == filterParams[k]
    ensures forall k :: k in parserParams && k !in filterParams ==> m[k] == parserParams[k]
    ensures filterParams == map[] ==> m == parserParams
  {
    if filterParams == map[] then parserParams else parserParams + filterParams
  }

  /** The statement that counts the rows of `query`, from which `query` can be read back. */
  function CountQuery(query: string): (c: string)
    ensures |c| == |CountPrefix| + |query| + |CountSuffix|
    ensures c[..|CountPrefix|] == CountPrefix
    ensures c[|CountPrefix|..|CountPrefix| + |query|] == query
    ensures c[|CountPrefix| + |query|..] == CountSuffix
  {
    CountPrefix + query + CountSuffix
  }

  /** Two statements have the same count statement only if they are the same. */
  lemma CountQueryInjective(q: string, q': string)
    requires CountQuery(q) == CountQuery(q')
    ensures q == q'
  {
  }

  /** The SQL handed to the parser and the values the filter bound: the configured SQL and
      nothing when built-in filtering is off; otherwise the compiler's output. */
  function Filtered(req: Request, config: Config): Result<(string, Params), Failure> {
    if !config.builtinFiltering then
      Success((config.sql, map[]))
    else
      var c := Compile(config.sql, req, config.filteringColumns);
      if c.query.Broken? then Failure(FilterQueryBroken) else Success((c.query.text, c.params))
  }

  /** One request to the action. `parseSql` is the SQL parser, which returns the
      driver-ready statement and the values it binds. */
  function Handle<Row>(req: Request, config: Config, parseSql: (string, Request) -> (string, Params), db: Connection<Row>)
    : (r: Result<Envelope<Row>, Failure>)
    ensures r.Success? <==> Filtered(req, config).Success?
    ensures r.Success? ==>
      var (query, parserParams) := parseSql(Filtered(req, config).value.0, req);
      var params := Merge(parserParams, Filtered(req, config).value.1);
      && r.value.totalResults == db.fetchColumn(CountQuery(query), params)
      && r.value.startIndex >= 0
      && 1 <= r.value.itemsPerPage <= EffectiveLimit(config.limit)
      && (r.value.itemsPerPage == req.count <==> 1 <= req.count <= EffectiveLimit(config.limit))
      && (req.startIndex >= 0 ==> r.value.startIndex == req.startIndex)
      && Page(r.value.startIndex, r.value.itemsPerPage) == Clamp(req.startIndex, req.count, config.limit)
      && r.value.entry == db.fetchAll(db.modifyLimitQuery(query, r.value.itemsPerPage, r.value.startIndex), params)
  {
    match Filtered(req, config)
    case Failure(e) => Failure(e)
    case Success(filtered) =>
      var (sql, filterParams) := filtered;
      var (query, parserParams) := parseSql(sql, req);
      var params := Merge(parserParams, filterParams);
      var page := Clamp(req.startIndex, req.count, config.limit);
      var totalResults := db.fetchColumn(CountQuery(query), params);
      var data := db.fetchAll(db.modifyLimitQuery(query, page.count, page.startIndex), params);
      Success(Envelope(totalResults, page.count, page.startIndex, data))
  }

  /** With built-in filtering off the parser sees the configured SQL, marker included, and
      the statement's values are the parser's own. */
  lemma FilteringOff<Row>(req: Request, config: Config, parseSql: (string, Request) -> (string, Params), db: Connection<Row>)
    requires !config.builtinFiltering
    ensures var (query, parserParams) := parseSql(config.sql, req);
      var r := Handle(req, config, parseSql, db);
      && r.Success?
      && r.value.totalResults == db.fetchColumn(CountQuery(query), parserParams)
  {
  }

  /** With built-in filtering on, every value the filter binds reaches the count and data
      statements, overriding a parser value of the same name. */
  lemma FilterValuesWin(req: Request, config: Config, parserParams: Params, k: string)
    requires config.builtinFiltering
    requires Filtered(req, config).Success?
    requires k in Compile(config.sql, req, config.filteringColumns).params
    ensures var filterParams := Compile(config.sql, req, config.filteringColumns).params;
      Merge(parserParams, filterParams)[k] == filterParams[k]
  {
  }

  /** Handling stops exactly when filtering is on, the gate passes and the operator is
      `present`. */
  lemma HandlingStopsExactlyOnPresent<Row>(req: Request, config: Config, parseSql: (string, Request) -> (string, Params), db: Connection<Row>)
    ensures Handle(req, config, parseSql, db).Failure? <==>
      config.builtinFiltering && GatePasses(req, config.filteringColumns) && Operator(req) == "present"
  {
  }
}
