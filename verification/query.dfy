/** `WC_Gateway_Open::_custom_query_var`: the order-query filter that turns the
    `open_archived` query var into two meta-query clauses, and what those
    clauses select. */
module Query {
  import opened Php
  import opened Orders

  datatype Compare = Exists | NotExists

  /** One `meta_query` clause: `array('key' => …, 'compare' => …)`. */
  datatype MetaClause = MetaClause(key: string, compare: Compare)

  /** The WP_Query arguments: the `meta_query` list (absent until first
      appended to) and every other argument, which the filter never reads. */
  datatype WpQuery = WpQuery(metaQuery: Option<seq<MetaClause>>, rest: map<string, Value>)

  /** The clauses of a query, treating an absent `meta_query` as empty, as
      PHP's `$query['meta_query'][] = …` does. */
  function Clauses(q: WpQuery): seq<MetaClause>
  {
    match q.metaQuery
    case Some(cs) => cs
    case None => []
  }

  /** The filter. */
  function CustomQueryVar(q: WpQuery, queryVars: map<string, Value>): (r: WpQuery)
    ensures "open_archived" !in queryVars ==> r == q
    ensures "open_archived" in queryVars ==>
      && r.rest == q.rest
      && r.metaQuery.Some?
      && |Clauses(r)| == |Clauses(q)| + 2
      && Clauses(r)[..|Clauses(q)|] == Clauses(q)
      && Clauses(r)[|Clauses(q)|] ==
           MetaClause(ArchivedKey, if Truthy(queryVars["open_archived"]) then Exists else NotExists)
      && Clauses(r)[|Clauses(q)| + 1] == MetaClause(ChargeIdKey, Exists)
  {
    if "open_archived" in queryVars then
      var archived := MetaClause(ArchivedKey, if Truthy(queryVars["open_archived"]) then Exists else NotExists);
      var charged := MetaClause(ChargeIdKey, Exists);
      q.(metaQuery := Some(Clauses(q) + [archived, charged]))
    else
      q
  }

  /** Whether an order's meta satisfies one clause. */
  predicate ClauseHolds(meta: map<string, Value>, c: MetaClause)
  {
    match c.compare
    case Exists => c.key in meta
    case NotExists => c.key !in meta
  }

  /** Whether an order's meta satisfies every clause (the default AND relation). */
  predicate MetaMatches(meta: map<string, Value>, cs: seq<MetaClause>)
  {
    forall i :: 0 <= i < |cs| ==> ClauseHolds(meta, cs[i])
  }

  /** The rewritten query selects exactly the orders the original query
      selected that also carry a charge id and whose archived flag exists as asked. */
  lemma ArchivedVarSelects(meta: map<string, Value>, q: WpQuery, queryVars: map<string, Value>)
    requires "open_archived" in queryVars
    ensures MetaMatches(meta, Clauses(CustomQueryVar(q, queryVars))) <==>
      && MetaMatches(meta, Clauses(q))
      && (if Truthy(queryVars["open_archived"]) then ArchivedKey in meta else ArchivedKey !in meta)
      && ChargeIdKey in meta
  {
    var cs := Clauses(CustomQueryVar(q, queryVars));
    var n := |Clauses(q)|;
    forall i | 0 <= i < n
      ensures cs[i] == Clauses(q)[i]
    {
      assert cs[..n][i] == cs[i];
    }
    if MetaMatches(meta, cs) {
      assert ClauseHolds(meta, cs[n]) && ClauseHolds(meta, cs[n + 1]);
    }
  }
}
