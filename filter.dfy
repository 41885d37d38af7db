/** The filter compiler of the SQL-Query-All action: it turns the request fields
    `filterBy`, `filterOp`, `filterValue` and `filterValueB` into a predicate spliced into
    the configured SQL template at every `{filterBy}` marker, plus the named values the
    predicate binds. `Compile` states the outcome operator by operator, as a table;
    `AddFilter` is the source's own step-by-step procedure and is proved to produce
    exactly that outcome. */
module Filter {
  import opened Wrappers
  import opened Text

  /** The literal the source's regular expression matches (no case-insensitive flag). */
  const Marker := "{filterBy}"
  /** The always-true predicate put in place of the marker when no filter applies. */
  const Tautology := " (1 = 1) "

  /** The request fields the compiler reads; `None` is a field the request does not carry.
      `startIndex` and `count` are the request's pagination fields after the `(int)` cast. */
  datatype Request = Request(
    filterBy: Option<string>,
    filterOp: Option<string>,
    filterValue: Option<string>,
    filterValueB: Option<string>,
    startIndex: int,
    count: int)

  /** The operators the source's `switch` has a case label for. */
  datatype Op = Contains | Equals | StartsWith | Present | Ne | Gt | Gte | Lt | Lte | Between

  /** The query text after compilation: a string, or `Broken` for the `present` branch,
      whose `preg_replace` call passes `-1` as the subject and the query as the limit, so
      that it does not return the template with markers replaced. */
  datatype SqlText = Sql(text: string) | Broken

  datatype Compiled = Compiled(query: SqlText, params: map<string, string>)

  /** A missing field reads as `null`, which `strtolower` turns into the empty string. */
  function OrBlank(v: Option<string>): string {
    if v.Some? then v.value else ""
  }

  /** PHP's `empty()` on a string: the empty string and `"0"`. */
  predicate EmptyText(s: string) {
    s == "" || s == "0"
  }

  /** PHP's `empty()` on a request field, which may also be `null`. */
  predicate IsEmpty(v: Option<string>) {
    v.None? || EmptyText(v.value)
  }

  /** The column as the compiler uses it: lowercased. */
  function Column(req: Request): string {
    Lower(OrBlank(req.filterBy))
  }

  /** The operator as the compiler matches it: lowercased. */
  function Operator(req: Request): string {
    Lower(OrBlank(req.filterOp))
  }

  /** The case label each operator is written with in the source. */
  function Label(op: Op): string {
    match op
    case Contains => "contains"
    case Equals => "equals"
    case StartsWith => "startsWith"
    case Present => "present"
    case Ne => "ne"
    case Gt => "gt"
    case Gte => "gte"
    case Lt => "lt"
    case Lte => "lte"
    case Between => "between"
  }

  /** The operator whose case label equals `s` exactly, if any. */
  function ParseOp(s: string): (r: Option<Op>)
    ensures r.Some? ==> Label(r.value) == s
    ensures forall op :: Label(op) == s ==> r == Some(op)
  {
    if s == "contains" then Some(Contains)
    else if s == "equals" then Some(Equals)
    else if s == "startsWith" then Some(StartsWith)
    else if s == "present" then Some(Present)
    else if s == "ne" then Some(Ne)
    else if s == "gt" then Some(Gt)
    else if s == "gte" then Some(Gte)
    else if s == "lt" then Some(Lt)
    else if s == "lte" then Some(Lte)
    else if s == "between" then Some(Between)
    else None
  }

  /** The gate: column, operator and value are non-empty, and the lowercased column is an
      element of the allow-list. */
  predicate GatePasses(req: Request, columns: seq<string>) {
    && !EmptyText(Column(req))
    && !EmptyText(Operator(req))
    && !IsEmpty(req.filterValue)
    && Column(req) in columns
  }

  /** What each operator writes after the column name. */
  function Comparison(op: Op): string {
    match op
    case Contains => " LIKE :filterValue"
    case Equals => " = :filterValue"
    case StartsWith => " LIKE :filterValue"
    case Present => " IS NOT NULL"
    case Ne => " != :filterValue"
    case Gt => " > :filterValue"
    case Gte => " >= :filterValue"
    case Lt => " < :filterValue"
    case Lte => " <= :filterValue"
    case Between => " BETWEEN :filterValueA AND :filterValueB"
  }

  /** The values each operator binds, for primary value `v` and secondary value `b`; the
      inequality operators keep the trailing wildcard the source appends. */
  function Bindings(op: Op, v: string, b: string): map<string, string> {
    match op
    case Contains => map["filterValue" := "%" + v + "%"]
    case Equals => map["filterValue" := v]
    case StartsWith => map["filterValue" := v + "%"]
    case Present => map[]
    case Ne => map["filterValue" := v + "%"]
    case Gt => map["filterValue" := v + "%"]
    case Gte => map["filterValue" := v + "%"]
    case Lt => map["filterValue" := v + "%"]
    case Lte => map["filterValue" := v + "%"]
    case Between => map["filterValueA" := v, "filterValueB" := b]
  }

  /** The template with every marker replaced by `p` and nothing else changed. */
  function Substitute(t: string, p: string): string {
    Join(Split(t, Marker), p)
  }

  /** What `preg_replace` writes in place of one marker when given the replacement
      string `rep`: the marker pattern has no capture groups, so `$0`, `${0}` and `\0`
      write the marker itself back, and other back references write nothing. */
  function Replacement(rep: string): string {
    Expand(rep, Marker)
  }

  /** Every comparison starts with a space and holds no `$` or `\`. */
  lemma ComparisonLiteral(op: Op)
    ensures Stops(Comparison(op)[0])
    ensures NoSpecial(Comparison(op))
  {
    if op in {Ne, Gt, Gte, Lt, Lte} {
      InequalityLiteral(op);
    } else {
      match op {
        case Contains => assert NoSpecial(" LIKE :filterValue");
        case Equals => assert NoSpecial(" = :filterValue");
        case StartsWith => assert NoSpecial(" LIKE :filterValue");
        case Present => assert NoSpecial(" IS NOT NULL");
        case Between => assert NoSpecial(" BETWEEN :filterValueA AND :filterValueB");
      }
    }
  }

  lemma InequalityLiteral(op: Op)
    requires op in {Ne, Gt, Gte, Lt, Lte}
    ensures NoSpecial(Comparison(op))
  {
    match op {
      case Ne => assert NoSpecial(" != :filterValue");
      case Gt => assert NoSpecial(" > :filterValue");
      case Gte => assert NoSpecial(" >= :filterValue");
      case Lt => assert NoSpecial(" < :filterValue");
      case Lte => assert NoSpecial(" <= :filterValue");
    }
  }

  /** The column part of a predicate is expanded on its own. */
  lemma PredicateText(c: string, op: Op)
    ensures Replacement(c + Comparison(op)) == Replacement(c) + Comparison(op)
  {
    ComparisonLiteral(op);
    ExpandConcat(c, Comparison(op), Marker);
  }

  /** The tautology is taken literally. */
  lemma TautologyLiteral()
    ensures Replacement(Tautology) == Tautology
  {
    assert NoSpecial(Tautology);
    ExpandLiteral(Tautology, Marker);
  }

  function MarkerCount(t: string): nat {
    |Split(t, Marker)| - 1
  }

  /** The compiled query and bound values for template `t`, request `req` and allow-list
      `columns`. */
  function Compile(t: string, req: Request, columns: seq<string>): Compiled {
    if !GatePasses(req, columns) then
      Compiled(Sql(Substitute(t, Tautology)), map[])
    else
      match ParseOp(Operator(req))
      case None => Compiled(Sql(t), map[])
      case Some(op) =>
        if op == Present then
          Compiled(Broken, map[])
        else if op == Between && IsEmpty(req.filterValueB) then
          Compiled(Sql(Substitute(t, Tautology)), map[])
        else
          Compiled(
            Sql(Substitute(t, Replacement(Column(req) + Comparison(op)))),
            if MarkerCount(t) > 0 then Bindings(op, OrBlank(req.filterValue), OrBlank(req.filterValueB)) else map[])
  }

  /** `preg_replace` of the marker by the replacement string `rep`, with its
      replacement count. */
  method ReplaceMarker(query: string, rep: string) returns (result: string, count: nat)
    ensures result == Substitute(query, Replacement(rep))
    ensures count == MarkerCount(query)
    ensures count == 0 <==> !Text.Contains(query, Marker)
  {
    var expanded := Expand(rep, Marker);
    var r := ReplaceAll(query, Marker, expanded);
    ReplaceAllJoin(query, Marker, expanded);
    CountZeroIff(query, Marker, expanded);
    result, count := r.0, r.1;
  }

  /** The source's `addFilter`: reassigns the query in the branch the operator selects and
      fills the parameter map by key only when the replacement count is positive. */
  method AddFilter(req: Request, query: string, filteringColumns: seq<string>)
    returns (sql: SqlText, params: map<string, string>)
    ensures Compiled(sql, params) == Compile(query, req, filteringColumns)
  {
    var filterBy := Lower(OrBlank(req.filterBy));
    var filterOp := Lower(OrBlank(req.filterOp));
    var filterValue := req.filterValue;
    var count := 0;
    params := map[];
    sql := Sql(query);

    if !EmptyText(filterBy) && !EmptyText(filterOp) && !IsEmpty(filterValue) && filterBy in filteringColumns {
      var v := filterValue.value;
      var text;
      if filterOp == "contains" {
        text, count := ReplaceMarker(query, filterBy + " LIKE :filterValue");
        sql := Sql(text);
        if count > 0 {
          params := params["filterValue" := "%" + v + "%"];
        }
      } else if filterOp == "equals" {
        text, count := ReplaceMarker(query, filterBy + " = :filterValue");
        sql := Sql(text);
        if count > 0 {
          params := params["filterValue" := v];
        }
      } else if filterOp == "startsWith" {
        text, count := ReplaceMarker(query, filterBy + " LIKE :filterValue");
        sql := Sql(text);
        if count > 0 {
          params := params["filterValue" := v + "%"];
        }
      } else if filterOp == "present" {
        // preg_replace(regex, replacement, -1, $query): the arguments are out of place
        sql := Broken;
      } else if filterOp == "ne" {
        text, count := ReplaceMarker(query, filterBy + " != :filterValue");
        sql := Sql(text);
        if count > 0 {
          params := params["filterValue" := v + "%"];
        }
      } else if filterOp == "gt" {
        text, count := ReplaceMarker(query, filterBy + " > :filterValue");
        sql := Sql(text);
        if count > 0 {
          params := params["filterValue" := v + "%"];
        }
      } else if filterOp == "gte" {
        text, count := ReplaceMarker(query, filterBy + " >= :filterValue");
        sql := Sql(text);
        if count > 0 {
          params := params["filterValue" := v + "%"];
        }
      } else if filterOp == "lt" {
        text, count := ReplaceMarker(query, filterBy + " < :filterValue");
        sql := Sql(text);
        if count > 0 {
          params := params["filterValue" := v + "%"];
        }
      } else if filterOp == "lte" {
        text, count := ReplaceMarker(query, filterBy + " <= :filterValue");
        sql := Sql(text);
        if count > 0 {
          params := params["filterValue" := v + "%"];
        }
      } else if filterOp == "between" {
        var b := req.filterValueB;
        if !IsEmpty(b) {
          text, count := ReplaceMarker(query, filterBy + " BETWEEN :filterValueA AND :filterValueB");
          sql := Sql(text);
          if count > 0 {
            params := params["filterValueA" := v];
            params := params["filterValueB" := b.value];
          }
        } else {
          // this call passes no count argument, so `count` keeps its value
          TautologyLiteral();
          var replaced, _ := ReplaceMarker(query, Tautology);
          sql := Sql(replaced);
        }
      }
    } else {
      TautologyLiteral();
      var replaced, _ := ReplaceMarker(query, Tautology);
      sql := Sql(replaced);
    }
  }
}
