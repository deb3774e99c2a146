/**
 * CatalogSearchExpressionBuilder.java: the scan filter for an author search,
 * built condition by condition, and what the store makes of it.
 */
module SearchExpressions {
  import opened Wrappers
  import opened Records
  import opened Strings

  datatype CatalogSearchRequest = CatalogSearchRequest(authorFirstName: Option<string>, authorLastName: Option<string>)

  /** A filter expression with its placeholder values. */
  datatype Expression = Expression(expression: string, values: map<string, string>)

  const FirstCondition := "authorFirstName = :first"
  const LastCondition := "authorLastName = :last"

  /** The condition `from` writes for each placeholder, in the order it writes them. */
  function Conditions(x: Expression): seq<string> {
    (if ":first" in x.values then [FirstCondition] else []) + (if ":last" in x.values then [LastCondition] else [])
  }

  /** from: one condition and one placeholder value per author field that is set, or null for none. */
  method From(request: CatalogSearchRequest) returns (r: Option<Expression>)
    ensures r.None? <==> request.authorFirstName.None? && request.authorLastName.None?
    ensures request.authorFirstName.Some? && request.authorLastName.None? ==>
      r == Some(Expression(FirstCondition, map[":first" := request.authorFirstName.value]))
    ensures request.authorFirstName.None? && request.authorLastName.Some? ==>
      r == Some(Expression(LastCondition, map[":last" := request.authorLastName.value]))
    ensures request.authorFirstName.Some? && request.authorLastName.Some? ==>
      r == Some(Expression(FirstCondition + " AND " + LastCondition,
                           map[":first" := request.authorFirstName.value, ":last" := request.authorLastName.value]))
    ensures r.Some? ==> r.value.expression == Join(Conditions(r.value), " AND ")
    ensures r.Some? ==> |Conditions(r.value)| == |r.value.values|
    ensures r.Some? ==> forall c :: Satisfies(c, r.value) <==> Matches(c, request)
  {
    var conditions: seq<string> := [];
    var values: map<string, string> := map[];
    if request.authorFirstName.Some? {
      conditions := conditions + [FirstCondition];
      values := values[":first" := request.authorFirstName.value];
    }
    if request.authorLastName.Some? {
      conditions := conditions + [LastCondition];
      values := values[":last" := request.authorLastName.value];
    }
    if |conditions| == 0 {
      return None;
    }
    return Some(Expression(Join(conditions, " AND "), values));
  }

  /** How the store evaluates an expression `from` built: each placeholder's attribute equals its value. */
  predicate Satisfies(c: Catalog, x: Expression) {
    && (":first" in x.values ==> c.authorFirstName == Some(x.values[":first"]))
    && (":last" in x.values ==> c.authorLastName == Some(x.values[":last"]))
  }

  /** What the request asks for: every author field it sets matches. */
  predicate Matches(c: Catalog, request: CatalogSearchRequest) {
    && (request.authorFirstName.Some? ==> c.authorFirstName == request.authorFirstName)
    && (request.authorLastName.Some? ==> c.authorLastName == request.authorLastName)
  }
}
