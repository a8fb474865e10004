/** The query-composition part of the search routes: turning year and category
    selectors into one filter predicate, and the count-only query built from it. */
module Filters {
  import opened PyData

  /** A selector value as a request carries it: an integer year from a JSON
      body, or a string from a comma-separated query parameter. */
  datatype Selector = IntSel(i: int) | StrSel(s: string)

  /** Python `str()` of a selector value. */
  function ToStr(v: Selector): string {
    match v
    case IntSel(i) => IntToString(i)
    case StrSel(s) => s
  }

  /** `[str(v) for v in vs]`. */
  function ToStrs(vs: seq<Selector>): (r: seq<string>)
    ensures |r| == |vs|
    ensures forall k :: 0 <= k < |vs| ==> r[k] == ToStr(vs[k])
  {
    seq(|vs|, k requires 0 <= k < |vs| => ToStr(vs[k]))
  }

  /** A filter over indexed tag fields. The index renders it as a query
      string; that rendering is not modelled, the tree is. */
  datatype Predicate =
    | Universal                                   // "*": every record
    | TagIn(field: string, values: seq<string>)   // Tag(field) == values
    | And(left: Predicate, right: Predicate)      // left & right

  const YearField: string := "year"
  const CategoriesField: string := "categories"

  /** build_filter_expression: no selector gives the universal filter, one
      selector list gives its tag filter alone, both give their conjunction
      with the year filter on the left. */
  function BuildFilterExpression(years: seq<Selector>, categories: seq<Selector>): (p: Predicate)
    ensures years == [] && categories == [] ==> p == Universal
    ensures years != [] && categories == [] ==> p == TagIn(YearField, ToStrs(years))
    ensures years == [] && categories != [] ==> p == TagIn(CategoriesField, ToStrs(categories))
    ensures years != [] && categories != [] ==>
      p == And(TagIn(YearField, ToStrs(years)), TagIn(CategoriesField, ToStrs(categories)))
  {
    var yearFilter := if years != [] then Some(TagIn(YearField, ToStrs(years))) else None;
    var categoryFilter := if categories != [] then Some(TagIn(CategoriesField, ToStrs(categories))) else None;
    match (yearFilter, categoryFilter)
    case (None, None) => Universal
    case (Some(y), None) => y
    case (None, Some(c)) => c
    case (Some(y), Some(c)) => And(y, c)
  }

  // ---------------------------------------------------------------------
  // Intended meaning of a filter

  /** An indexed record as the filter sees it: each tag field holds a set of tags. */
  type TagRecord = map<string, set<string>>

  /** A tag list constrains a field when it is non-empty; the record then needs
      one of the listed tags in that field (OR within one field). */
  predicate FieldAllows(rec: TagRecord, field: string, values: seq<string>) {
    values == [] || (field in rec && exists k :: 0 <= k < |values| && values[k] in rec[field])
  }

  predicate Matches(p: Predicate, rec: TagRecord) {
    match p
    case Universal => true
    case TagIn(field, values) => values != [] && FieldAllows(rec, field, values)
    case And(l, r) => Matches(l, rec) && Matches(r, rec)
  }

  /** A record passes the built filter exactly when each non-empty selector
      list admits it: an empty list is no constraint, not "match nothing",
      and the two fields are combined with AND. */
  lemma BuildFilterMatches(years: seq<Selector>, categories: seq<Selector>, rec: TagRecord)
    ensures Matches(BuildFilterExpression(years, categories), rec) <==>
      FieldAllows(rec, YearField, ToStrs(years)) && FieldAllows(rec, CategoriesField, ToStrs(categories))
  {
  }

  /** Two integer years give the same tag string only when they are the same
      year, so `str()` keeps distinct selected years apart in the filter. */
  lemma YearStringsDistinct(a: int, b: int)
    ensures ToStr(IntSel(a)) == ToStr(IntSel(b)) <==> a == b
  {
    if ToStr(IntSel(a)) == ToStr(IntSel(b)) {
      IntToStringInjective(a, b);
    }
  }

  // ---------------------------------------------------------------------
  // Count query

  /** A query that asks only how many records match: the filter, no document
      content, and query dialect 2. */
  datatype CountQuery = CountQuery(filter: Predicate, noContent: bool, dialect: int)

  const CountDialect: int := 2

  /** create_count_query. */
  function CreateCountQuery(p: Predicate): (q: CountQuery)
    ensures q.filter == p && q.noContent && q.dialect == CountDialect
  {
    CountQuery(p, true, CountDialect)
  }

  /** The number of records of `recs` that the filter admits: what the index
      answers to a count query. */
  function CountMatching(p: Predicate, recs: seq<TagRecord>): (n: nat)
    ensures n <= |recs|
  {
    if recs == [] then 0
    else CountMatching(p, recs[..|recs| - 1]) + (if Matches(p, recs[|recs| - 1]) then 1 else 0)
  }

  function Total(q: CountQuery, recs: seq<TagRecord>): nat {
    CountMatching(q.filter, recs)
  }

  /** With no selectors, the count query counts every record. */
  lemma {:induction false} CountWithoutSelectors(recs: seq<TagRecord>)
    ensures Total(CreateCountQuery(BuildFilterExpression([], [])), recs) == |recs|
  {
    if recs != [] {
      CountWithoutSelectors(recs[..|recs| - 1]);
    }
  }

  /** Adding a category selector to a year selector never raises the count,
      and neither does adding a year selector to a category selector. */
  lemma {:induction false} CountNarrows(years: seq<Selector>, categories: seq<Selector>, recs: seq<TagRecord>)
    ensures Total(CreateCountQuery(BuildFilterExpression(years, categories)), recs)
         <= Total(CreateCountQuery(BuildFilterExpression(years, [])), recs)
    ensures Total(CreateCountQuery(BuildFilterExpression(years, categories)), recs)
         <= Total(CreateCountQuery(BuildFilterExpression([], categories)), recs)
  {
    if recs != [] {
      CountNarrows(years, categories, recs[..|recs| - 1]);
      var last := recs[|recs| - 1];
      BuildFilterMatches(years, categories, last);
      BuildFilterMatches(years, [], last);
      BuildFilterMatches([], categories, last);
    }
  }
}
