/** The free-text query of the discover view: the clauses `filterQuery`
    appends to it, and the query/sort part of the request descriptor that
    `updateDataSource` hands to the search source. */
module QueryText {
  import opened Options
  import opened Escaping

  /** The value argument of filterQuery: one value, or an array of values. */
  datatype FilterValue = One(item: Scalar) | Many(items: seq<Scalar>)

  /** `_.isArray(value) ? value : [value]`: a single value is treated as a
      one-element list. */
  function FilterValues(value: FilterValue): (r: seq<Scalar>)
    ensures value.One? ==> r == [value.item]
    ensures value.Many? ==> r == value.items
  {
    match value
    case One(v) => [v]
    case Many(vs) => vs
  }

  /** `operation || '+'`: an absent or empty operation means `+`. */
  function Operation(operation: Option<string>): (r: string)
    ensures r != []
    ensures operation.Some? && operation.value != [] ==> r == operation.value
    ensures operation.None? || operation.value == [] ==> r == "+"
  {
    match operation
    case Some(op) => if op == [] then "+" else op
    case None => "+"
  }

  /** The text a value contributes to a string concatenation. */
  function Text(v: Scalar): string {
    match v
    case Str(s) => s
    case Other(t) => t
  }

  /** What precedes the quoted value in every clause: ` <op><field>:"`. */
  function ClauseHead(op: string, field: string): string {
    " " + op + field + ":\""
  }

  /** The clause appended for one value: ` <op><field>:"<escaped value>"`. */
  function Clause(op: string, field: string, v: Scalar): string {
    ClauseHead(op, field) + Text(AddSlashes(v)) + "\""
  }

  /** The clauses for a list of values, in the order given. */
  function Clauses(op: string, field: string, vs: seq<Scalar>): string {
    if vs == [] then [] else Clause(op, field, vs[0]) + Clauses(op, field, vs[1..])
  }

  /** The texts of a list of values. */
  function Texts(vs: seq<Scalar>): seq<string> {
    if vs == [] then [] else [Text(vs[0])] + Texts(vs[1..])
  }

  /** Reads back a run of clauses that all start with `head`: one decoded
      value per clause, or None when the text is not such a run. */
  function ParseClauses(t: string, head: string): Option<seq<string>>
    decreases |t|
  {
    if t == [] then Some([])
    else if |head| <= |t| && t[..|head|] == head then
      match ReadQuoted(t[|head|..])
      case None => None
      case Some(p) =>
        match ParseClauses(p.1, head)
        case None => None
        case Some(rest) => Some([p.0] + rest)
    else None
  }

  /** Appending the clauses of `vs` one at a time (the loop of filterQuery)
      builds the same text as Clauses. */
  lemma {:induction false} ClausesSnoc(op: string, field: string, vs: seq<Scalar>, v: Scalar)
    ensures Clauses(op, field, vs + [v]) == Clauses(op, field, vs) + Clause(op, field, v)
    decreases |vs|
  {
    if vs == [] {
      assert [v][1..] == [];
    } else {
      assert (vs + [v])[1..] == vs[1..] + [v];
      ClausesSnoc(op, field, vs[1..], v);
    }
  }

  /** The loop of filterQuery: for each value in turn, the query grows by
      ` <op><field>:"<escaped value>"`. The result is the query followed by
      the clauses of all values, in order. */
  method AppendClauses(query: string, field: string, values: seq<Scalar>, op: string) returns (q: string)
    ensures q == query + Clauses(op, field, values)
  {
    q := query;
    var i := 0;
    while i < |values|
      invariant 0 <= i <= |values|
      invariant q == query + Clauses(op, field, values[..i])
    {
      var clause := " " + op + field + ":\"" + Text(AddSlashes(values[i])) + "\"";
      assert clause == Clause(op, field, values[i]);
      ClausesSnoc(op, field, values[..i], values[i]);
      assert values[..i + 1] == values[..i] + [values[i]];
      q := q + clause;
      i := i + 1;
    }
    assert values[..i] == values;
  }

  /** One clause in front of `tail` reads back as its value in front of what
      `tail` reads back as. */
  lemma ReadOneClause(head: string, s: string, tail: string)
    requires head != []
    ensures ParseClauses(head + (Escape(s) + "\"" + tail), head) ==
      match ParseClauses(tail, head)
      case None => None
      case Some(rest) => Some([s] + rest)
  {
    var t := head + (Escape(s) + "\"" + tail);
    assert t[..|head|] == head;
    assert t[|head|..] == Escape(s) + "\"" + tail;
    ReadQuotedEscape(s, tail);
  }

  /** Clauses starting with a string value: its head, its escape, a closing
      quote, then the clauses of the other values. */
  lemma ClausesOfString(op: string, field: string, vs: seq<Scalar>)
    requires vs != [] && vs[0].Str?
    ensures Clauses(op, field, vs) ==
      ClauseHead(op, field) + (Escape(vs[0].s) + "\"" + Clauses(op, field, vs[1..]))
  {
    AddSlashesIsEscape(vs[0].s);
    var head, e, tail := ClauseHead(op, field), Escape(vs[0].s), Clauses(op, field, vs[1..]);
    assert Clause(op, field, vs[0]) == head + e + "\"";
    assert (head + e + "\"") + tail == head + (e + "\"" + tail);
  }

  /** The clauses filterQuery appends are unambiguous: when every value is a
      string, reading the appended text back clause by clause yields exactly
      one value per clause, the original values, in the order given, whatever
      quotes or backslashes they contain. */
  lemma {:induction false} ClausesReadBack(op: string, field: string, vs: seq<Scalar>)
    requires forall i :: 0 <= i < |vs| ==> vs[i].Str?
    ensures ParseClauses(Clauses(op, field, vs), ClauseHead(op, field)) == Some(Texts(vs))
    decreases |vs|
  {
    if vs != [] {
      var head := ClauseHead(op, field);
      var rest := vs[1..];
      ClausesOfString(op, field, vs);
      assert forall i :: 0 <= i < |rest| ==> rest[i].Str? by {
        forall i | 0 <= i < |rest| ensures rest[i].Str? { assert rest[i] == vs[i + 1]; }
      }
      ClausesReadBack(op, field, rest);
      ReadOneClause(head, vs[0].s, Clauses(op, field, rest));
    }
  }


  /** `{query_string: {query: q}}`: the body of a query-string query. */
  datatype QueryBody = QueryString(query: string)

  /** The query and sort the controller configures on the search source:
      `query` is null (None) or a query-string body, `sort` is the array of
      one-key sort objects. */
  datatype Request = Request(query: Option<QueryBody>, sort: seq<map<string, string>>)

  /** The descriptor of updateDataSource: no query when the query string is
      empty, otherwise the exact string; a single sort entry mapping the sort
      field to its direction. */
  function Describe(query: string, sort: (string, string)): (r: Request)
    ensures r.query.None? <==> query == []
    ensures r.query.Some? ==> r.query.value.query == query
    ensures |r.sort| == 1 && r.sort[0].Keys == {sort.0} && r.sort[0][sort.0] == sort.1
  {
    Request(if query == [] then None else Some(QueryString(query)), [map[sort.0 := sort.1]])
  }

  /** The query string a request carries (empty when it carries none). */
  function RequestQuery(r: Request): string {
    match r.query
    case None => []
    case Some(b) => b.query
  }

  /** The sort pair of a request with a single one-key sort entry. */
  ghost function RequestSort(r: Request): (string, string)
    requires |r.sort| == 1 && |r.sort[0].Keys| == 1
  {
    var m := r.sort[0];
    var k :| k in m.Keys;
    (k, m[k])
  }

  /** The descriptor loses nothing: the query string and the sort pair can be
      read back from it. */
  lemma DescribeReadBack(query: string, sort: (string, string))
    ensures |Describe(query, sort).sort[0].Keys| == 1
    ensures RequestQuery(Describe(query, sort)) == query
    ensures RequestSort(Describe(query, sort)) == sort
  {
    var r := Describe(query, sort);
    assert r.sort[0].Keys == {sort.0};
  }

  /** The query text that loadState and resetQuery take from the saved
      search's initial query: its query string, or empty when there is none. */
  function InitialText(initialQuery: Option<QueryBody>): (r: string)
    ensures initialQuery.None? ==> r == []
    ensures initialQuery.Some? ==> r == initialQuery.value.query
  {
    match initialQuery
    case None => []
    case Some(b) => b.query
  }

  /** After resetQuery, the next request carries a query-string body with the
      initial query string again, unless that body's query string was empty, in which case it
      carries no query at all. */
  lemma ResetReissuesInitialQuery(initialQuery: Option<QueryBody>, sort: (string, string))
    ensures Describe(InitialText(initialQuery), sort).query ==
      if initialQuery.Some? && initialQuery.value.query != [] then initialQuery else None
  {
  }
}
