/** Properties of the filter compiler: what each operator produces, the gate, and why a
    request cannot put text of its own choosing into the SQL string. */
module FilterLemmas {
  import opened Wrappers
  import opened Text
  import opened Filter

  /** Every piece of the template between two markers comes back untouched: replacing each
      marker by itself gives the template, and no piece holds a marker. */
  lemma SubstituteOnlyTouchesMarkers(t: string)
    ensures Substitute(t, Marker) == t
    ensures MarkerFree(Split(t, Marker), Marker)
    ensures MarkerCount(t) == 0 <==> !Text.Contains(t, Marker)
  {
    JoinSplit(t, Marker);
    SplitMarkerFree(t, Marker);
    SingletonIff(t, Marker);
  }

  /** A template without a marker is left as it is by any substitution. */
  lemma SubstituteWithoutMarker(t: string, p: string)
    requires !Text.Contains(t, Marker)
    ensures Substitute(t, p) == t
  {
    SingletonIff(t, Marker);
    JoinSplit(t, Marker);
  }

  /** The tautology shares no character with the marker. */
  lemma TautologyDisjointFromMarker()
    ensures forall i, j :: 0 <= i < |Tautology| && 0 <= j < |Marker| ==> Tautology[i] != Marker[j]
  {
  }

  /** When the gate rejects the request, every marker becomes the tautology, no marker is
      left in the query, and nothing is bound. */
  lemma GateFailure(t: string, req: Request, columns: seq<string>)
    requires !GatePasses(req, columns)
    ensures Compile(t, req, columns).params == map[]
    ensures Compile(t, req, columns).query == Sql(Substitute(t, Tautology))
    ensures !Text.Contains(Compile(t, req, columns).query.text, Marker)
  {
    SplitMarkerFree(t, Marker);
    TautologyDisjointFromMarker();
    JoinDisjointNoOccurrence(Split(t, Marker), Tautology, Marker);
  }

  /** `contains` and `equals`: every marker becomes the column compared with
      `:filterValue`; the value is bound, wrapped in wildcards for `contains`, exactly when
      the template has a marker. */
  lemma ContainsAndEquals(t: string, req: Request, columns: seq<string>)
    requires GatePasses(req, columns)
    requires Operator(req) in {"contains", "equals"}
    ensures var r := Compile(t, req, columns);
      var v := req.filterValue.value;
      && r.query == Sql(Substitute(t, Replacement(Column(req) + (if Operator(req) == "contains" then " LIKE :filterValue" else " = :filterValue"))))
      && (Text.Contains(t, Marker) ==> r.params == map["filterValue" := if Operator(req) == "contains" then "%" + v + "%" else v])
      && (!Text.Contains(t, Marker) ==> r.params == map[])
  {
    SingletonIff(t, Marker);
  }

  /** The comparison symbol of each inequality operator. */
  function Symbol(op: Op): string
    requires op in {Ne, Gt, Gte, Lt, Lte}
  {
    match op
    case Ne => "!=" case Gt => ">" case Gte => ">=" case Lt => "<" case Lte => "<="
  }

  /** Each inequality operator writes its symbol between the column and `:filterValue`. */
  lemma ComparisonOfInequality(op: Op)
    requires op in {Ne, Gt, Gte, Lt, Lte}
    ensures Comparison(op) == " " + Symbol(op) + " :filterValue"
  {
    match op {
      case Ne => assert " " + "!=" + " :filterValue" == " != :filterValue";
      case Gt => assert " " + ">" + " :filterValue" == " > :filterValue";
      case Gte => assert " " + ">=" + " :filterValue" == " >= :filterValue";
      case Lt => assert " " + "<" + " :filterValue" == " < :filterValue";
      case Lte => assert " " + "<=" + " :filterValue" == " <= :filterValue";
    }
  }

  /** `ne`, `gt`, `gte`, `lt`, `lte`: the column is compared with `:filterValue` by the
      operator's symbol, and the value is bound with a trailing wildcard when the template
      has a marker. */
  lemma Inequalities(t: string, req: Request, columns: seq<string>, op: Op)
    requires GatePasses(req, columns)
    requires op in {Ne, Gt, Gte, Lt, Lte} && Operator(req) == Label(op)
    ensures var r := Compile(t, req, columns);
      && r.query == Sql(Substitute(t, Replacement(Column(req) + (" " + Symbol(op) + " :filterValue"))))
      && (Text.Contains(t, Marker) ==> r.params == map["filterValue" := req.filterValue.value + "%"])
      && (!Text.Contains(t, Marker) ==> r.params == map[])
  {
    SingletonIff(t, Marker);
    assert ParseOp(Operator(req)) == Some(op);
    var v := req.filterValue.value;
    assert Bindings(op, v, OrBlank(req.filterValueB)) == map["filterValue" := v + "%"];
    assert Compile(t, req, columns) ==
      Compiled(Sql(Substitute(t, Replacement(Column(req) + Comparison(op)))),
               if MarkerCount(t) > 0 then map["filterValue" := v + "%"] else map[]);
    ComparisonOfInequality(op);
  }

  /** `between` with a secondary value: a range predicate over two bound values. */
  lemma BetweenWithSecondValue(t: string, req: Request, columns: seq<string>)
    requires GatePasses(req, columns)
    requires Operator(req) == "between" && !IsEmpty(req.filterValueB)
    ensures var r := Compile(t, req, columns);
      && r.query == Sql(Substitute(t, Replacement(Column(req) + " BETWEEN :filterValueA AND :filterValueB")))
      && (Text.Contains(t, Marker) ==>
            r.params == map["filterValueA" := req.filterValue.value, "filterValueB" := req.filterValueB.value])
      && (!Text.Contains(t, Marker) ==> r.params == map[])
  {
    SingletonIff(t, Marker);
  }

  /** `between` without a secondary value gives what a rejected request gives, although
      the gate passed. */
  lemma BetweenWithoutSecondValue(t: string, req: Request, columns: seq<string>)
    requires GatePasses(req, columns)
    requires Operator(req) == "between" && IsEmpty(req.filterValueB)
    ensures Compile(t, req, columns) == Compile(t, req, [])
    ensures Compile(t, req, columns) == Compiled(Sql(Substitute(t, Tautology)), map[])
  {
  }

  /** `present` binds nothing; its query is not the template with markers replaced. */
  lemma PresentBindsNothing(t: string, req: Request, columns: seq<string>)
    requires GatePasses(req, columns) && Operator(req) == "present"
    ensures Compile(t, req, columns) == Compiled(Broken, map[])
  {
  }

  /** The operator is lowercased before it is matched, so the `startsWith` label, which
      has an upper-case letter, is never selected. */
  lemma StartsWithUnreachable(req: Request)
    ensures ParseOp(Operator(req)) != Some(StartsWith)
  {
    var op := Operator(req);
    if |op| > 6 {
      assert !IsUpper(op[6]);
    }
  }

  /** An operator outside the case labels leaves the query byte for byte as it was, marker
      included, and binds nothing: the `switch` has no default branch. */
  lemma UnknownOperator(t: string, req: Request, columns: seq<string>)
    requires GatePasses(req, columns)
    requires forall op :: Label(op) != Operator(req)
    ensures Compile(t, req, columns) == Compiled(Sql(t), map[])
    ensures MarkerCount(Compile(t, req, columns).query.text) == MarkerCount(t)
  {
  }

  /** The request's own spelling `startsWith` is one such unknown operator. */
  lemma StartsWithSpellingIsUnknown(t: string, req: Request, columns: seq<string>)
    requires GatePasses(req, columns) && req.filterOp == Some("startsWith")
    ensures Operator(req) == "startswith"
    ensures Compile(t, req, columns) == Compiled(Sql(t), map[])
  {
  }

  /** Values are only ever bound, never spliced: two requests that differ only in their
      values (with the same emptiness) compile to the same query text. */
  lemma ValuesNeverInQueryText(t: string, req: Request, req': Request, columns: seq<string>)
    requires req'.filterBy == req.filterBy && req'.filterOp == req.filterOp
    requires IsEmpty(req'.filterValue) == IsEmpty(req.filterValue)
    requires IsEmpty(req'.filterValueB) == IsEmpty(req.filterValueB)
    ensures Compile(t, req', columns).query == Compile(t, req, columns).query
  {
  }

  /** The only column text that reaches the query is the lowercased request column, with
      its back references expanded, and only when it is an element of the allow-list:
      otherwise the query is the template itself or the template with the tautology. */
  lemma OnlyAllowedColumnReachesQuery(t: string, req: Request, columns: seq<string>)
    ensures var q := Compile(t, req, columns).query;
      q.Sql? ==>
        || q.text == t
        || q.text == Substitute(t, Tautology)
        || (Column(req) in columns && exists op :: q.text == Substitute(t, Replacement(Column(req) + Comparison(op))))
  {
    JoinSplit(t, Marker);
    var q := Compile(t, req, columns).query;
    if GatePasses(req, columns) && ParseOp(Operator(req)).Some? {
      var op := ParseOp(Operator(req)).value;
      if q.Sql? && q.text != Substitute(t, Tautology) {
        assert q.text == Substitute(t, Replacement(Column(req) + Comparison(op)));
      }
    }
  }

  /** A column without `$` and `\` reaches the query verbatim. */
  lemma PlainColumnVerbatim(c: string, op: Op)
    requires NoSpecial(c)
    ensures Replacement(c + Comparison(op)) == c + Comparison(op)
  {
    PredicateText(c, op);
    ExpandLiteral(c, Marker);
  }

  /** An allow-listed column that ends in a back reference does not reach the query as
      written: `$0` and `${0}` write the marker back, `$20` names group 20, which is
      empty, and only an escaped `\\$0` stays as `$0`. */
  lemma ColumnReferencesExpanded(c: string)
    requires NoSpecial(c)
    ensures Replacement(c + "$0") == c + Marker
    ensures Replacement(c + "${0}") == c + Marker
    ensures Replacement(c + "$20") == c
    ensures Replacement(c + "\\$0") == c + "$0"
  {
    ExpandPlainPrefix(c, "$0", Marker);
    ExpandPlainPrefix(c, "${0}", Marker);
    ExpandPlainPrefix(c, "$20", Marker);
    ExpandPlainPrefix(c, "\\$0", Marker);
  }

  /** Values are bound exactly when the gate passes, the operator is one that binds,
      `between` has its secondary value, and the template holds a marker. */
  lemma BindsExactlyWhenMarkerReplaced(t: string, req: Request, columns: seq<string>)
    ensures Compile(t, req, columns).params != map[] <==>
      && GatePasses(req, columns)
      && ParseOp(Operator(req)).Some?
      && ParseOp(Operator(req)).value != Present
      && (ParseOp(Operator(req)).value == Between ==> !IsEmpty(req.filterValueB))
      && Text.Contains(t, Marker)
    ensures Compile(t, req, columns).params.Keys <= {"filterValue", "filterValueA", "filterValueB"}
  {
    SingletonIff(t, Marker);
    if GatePasses(req, columns) && ParseOp(Operator(req)).Some? {
      var op := ParseOp(Operator(req)).value;
      var v, b := OrBlank(req.filterValue), OrBlank(req.filterValueB);
      assert op != Present ==> Bindings(op, v, b) != map[] by {
        if op == Between { assert "filterValueA" in Bindings(op, v, b); }
        else if op != Present { assert "filterValue" in Bindings(op, v, b); }
      }
    }
  }

  /** A column that is only a part of an allowed column does not pass the gate. */
  lemma SubstringColumnRejected()
    ensures !GatePasses(Request(Some("ame"), Some("contains"), Some("ann"), None, 0, 0), ["name"])
  {
  }

  /** A template with one marker and no other `{` is the text around the marker. */
  lemma OneMarker(a: string, b: string, p: string)
    requires NoBrace(a) && NoBrace(b)
    ensures Substitute(a + Marker + b, p) == a + p + b
    ensures MarkerCount(a + Marker + b) == 1
  {
    SplitAroundOne(a, Marker, b);
    var parts := Split(a + Marker + b, Marker);
    assert parts == [a, b];
    assert parts[1..] == [b];
    assert Join(parts, p) == a + p + Join([b], p);
  }

  function ExampleRequest(column: string, op: string, v: string, b: Option<string>): Request {
    Request(Some(column), Some(op), Some(v), b, 0, 0)
  }

  predicate NoBrace(s: string) {
    forall i :: 0 <= i < |s| ==> s[i] != '{'
  }

  /** A request that passes the gate, on a template with one marker. */
  lemma CompileOneMarker(a: string, b: string, req: Request, columns: seq<string>, op: Op)
    requires NoBrace(a) && NoBrace(b)
    requires GatePasses(req, columns) && ParseOp(Operator(req)) == Some(op)
    requires op != Present && (op == Between ==> !IsEmpty(req.filterValueB))
    ensures Compile(a + Marker + b, req, columns)
         == Compiled(Sql(a + Replacement(Column(req) + Comparison(op)) + b),
                     Bindings(op, OrBlank(req.filterValue), OrBlank(req.filterValueB)))
  {
    OneMarker(a, b, Replacement(Column(req) + Comparison(op)));
  }

  /** An example request names its column and operator in lower case already. */
  lemma ExampleRequestFacts(column: string, op: string, v: string, b: Option<string>)
    requires NoUpper(column) && NoUpper(op)
    ensures Column(ExampleRequest(column, op, v, b)) == column
    ensures Operator(ExampleRequest(column, op, v, b)) == op
  {
    LowerWithoutUpper(column);
    LowerWithoutUpper(op);
  }

  /** The labels the examples use are written in lower case. */
  lemma LowerCaseLabels()
    ensures NoUpper("contains") && NoUpper("equals") && NoUpper("between")
  {
  }

  /** A column the request can name as it is listed: lower case, not empty, and without
      `$` or `\`. */
  predicate PlainColumn(c: string) {
    NoUpper(c) && NoSpecial(c) && !EmptyText(c)
  }

  /** `c contains ann` on a single-marker template such as
      `SELECT * FROM users WHERE {filterBy}`. */
  lemma ExampleContains(a: string, b: string, c: string)
    requires NoBrace(a) && NoBrace(b) && PlainColumn(c)
    ensures Compile(a + Marker + b, ExampleRequest(c, "contains", "ann", None), [c])
         == Compiled(Sql(a + c + " LIKE :filterValue" + b), map["filterValue" := "%ann%"])
  {
    var req := ExampleRequest(c, "contains", "ann", None);
    assert Column(req) == c && Operator(req) == "contains" by {
      LowerCaseLabels();
      ExampleRequestFacts(c, "contains", "ann", None);
    }
    assert Compile(a + Marker + b, req, [c])
        == Compiled(Sql(a + Replacement(c + Comparison(Contains)) + b), Bindings(Contains, "ann", "")) by {
      CompileOneMarker(a, b, req, [c], Contains);
    }
    PlainColumnVerbatim(c, Contains);
    assert a + (c + " LIKE :filterValue") + b == a + c + " LIKE :filterValue" + b;
    assert Bindings(Contains, "ann", "") == map["filterValue" := "%ann%"] by {
      assert "%" + "ann" + "%" == "%ann%";
    }
  }

  /** `c equals ann` binds the value without wildcards. */
  lemma ExampleEquals(a: string, b: string, c: string)
    requires NoBrace(a) && NoBrace(b) && PlainColumn(c)
    ensures Compile(a + Marker + b, ExampleRequest(c, "equals", "ann", None), [c])
         == Compiled(Sql(a + c + " = :filterValue" + b), map["filterValue" := "ann"])
  {
    var req := ExampleRequest(c, "equals", "ann", None);
    assert Column(req) == c && Operator(req) == "equals" by {
      LowerCaseLabels();
      ExampleRequestFacts(c, "equals", "ann", None);
    }
    assert Compile(a + Marker + b, req, [c])
        == Compiled(Sql(a + Replacement(c + Comparison(Equals)) + b), Bindings(Equals, "ann", "")) by {
      CompileOneMarker(a, b, req, [c], Equals);
    }
    PlainColumnVerbatim(c, Equals);
    assert a + (c + " = :filterValue") + b == a + c + " = :filterValue" + b;
  }

  /** `c between 1 and 9`, as in `SELECT id FROM t WHERE {filterBy}`. */
  lemma ExampleBetween(a: string, b: string, c: string)
    requires NoBrace(a) && NoBrace(b) && PlainColumn(c)
    ensures Compile(a + Marker + b, ExampleRequest(c, "between", "1", Some("9")), [c])
         == Compiled(Sql(a + c + " BETWEEN :filterValueA AND :filterValueB" + b),
                     map["filterValueA" := "1", "filterValueB" := "9"])
  {
    var req := ExampleRequest(c, "between", "1", Some("9"));
    assert Column(req) == c && Operator(req) == "between" by {
      LowerCaseLabels();
      ExampleRequestFacts(c, "between", "1", Some("9"));
    }
    assert Compile(a + Marker + b, req, [c])
        == Compiled(Sql(a + Replacement(c + Comparison(Between)) + b), Bindings(Between, "1", "9")) by {
      CompileOneMarker(a, b, req, [c], Between);
    }
    PlainColumnVerbatim(c, Between);
    assert a + (c + " BETWEEN :filterValueA AND :filterValueB") + b
        == a + c + " BETWEEN :filterValueA AND :filterValueB" + b;
  }

  /** `c between 1` with no secondary value falls back to the tautology. */
  lemma ExampleBetweenWithoutSecond(a: string, b: string, c: string)
    requires NoBrace(a) && NoBrace(b) && PlainColumn(c)
    ensures Compile(a + Marker + b, ExampleRequest(c, "between", "1", None), [c])
         == Compiled(Sql(a + " (1 = 1) " + b), map[])
  {
    var req := ExampleRequest(c, "between", "1", None);
    assert Column(req) == c && Operator(req) == "between" by {
      LowerCaseLabels();
      ExampleRequestFacts(c, "between", "1", None);
    }
    assert GatePasses(req, [c]) && ParseOp(Operator(req)) == Some(Between);
    OneMarker(a, b, Tautology);
  }
}
