/** Result assembly of the search routes: `process_paper` adds a similarity
    score to a result row in place, and `prepare_response` processes every row
    of a result set into the response. */
module Responses {
  import opened PyData

  const DistanceKey: string := "vector_distance"
  const ScoreKey: string := "similarity_score"

  /** A result row: a plain dict (vector query results), or a search-result
      document whose attribute dict holds its fields. */
  datatype RawResult = Plain(dict: Dict) | Doc(attrs: Dict)

  /** The dict a row is processed through: the dict itself, or the
      document's `__dict__` (the same object, not a copy). */
  function AsDict(row: RawResult): (d: Dict)
    ensures row.Plain? ==> d == row.dict
    ensures row.Doc? ==> d == row.attrs
  {
    match row
    case Plain(d) => d
    case Doc(a) => a
  }

  /** What a query hands to the response: a list of rows, or a search result
      whose `docs` are the rows. */
  datatype SearchResults = Listed(rows: seq<RawResult>) | Found(total: int, docs: seq<RawResult>)

  function Rows(results: SearchResults): (rows: seq<RawResult>)
    ensures results.Listed? ==> rows == results.rows
    ensures results.Found? ==> rows == results.docs
  {
    match results
    case Listed(rows) => rows
    case Found(_, docs) => docs
  }

  datatype Response = Response(total: int, papers: seq<Dict>)

  /** The fields of a row after `process_paper`, or the exception it raises. */
  function Processed(m: map<string, Value>): (r: Result<map<string, Value>>)
    ensures DistanceKey !in m ==> r == Ok(m)
    ensures r.Err? <==> DistanceKey in m && Float(m[DistanceKey]).Err?
    ensures r.Err? ==> r.error == Float(m[DistanceKey]).error
    ensures r.Ok? ==> r.value.Keys == m.Keys + (if DistanceKey in m then {ScoreKey} else {})
    ensures r.Ok? ==> forall k :: k in m && k != ScoreKey ==> r.value[k] == m[k]
    ensures r.Ok? && DistanceKey in m ==> r.value[ScoreKey] == Num(1.0 - Float(m[DistanceKey]).value)
  {
    if DistanceKey in m then
      var distance := Float(m[DistanceKey]);
      if distance.Ok? then
        var scored := m[ScoreKey := Num(1.0 - distance.value)];
        assert scored.Keys == m.Keys + {ScoreKey};
        assert forall k :: k in m && k != ScoreKey ==> scored[k] == m[k];
        Ok(scored)
      else
        Err(distance.error)
    else
      Ok(m)
  }

  /** Processing a processed row again changes nothing. */
  lemma ProcessedIdempotent(m: map<string, Value>)
    requires Processed(m).Ok?
    ensures Processed(Processed(m).value) == Processed(m)
  {
    var m' := Processed(m).value;
    if DistanceKey in m {
      assert m'[DistanceKey] == m[DistanceKey];
      assert m'[ScoreKey := m'[ScoreKey]] == m';
    }
  }

  /** The score is the complement of the distance: the two add up to one. */
  lemma ScoreComplementsDistance(m: map<string, Value>)
    requires Processed(m).Ok? && DistanceKey in m
    ensures Float(Processed(m).value[DistanceKey]).value + Float(Processed(m).value[ScoreKey]).value == 1.0
  {
  }

  /** A distance of 0 scores 1 and a distance of 1 scores 0, whether the
      distance arrives as a number or as the string the index returns. */
  lemma ScoreAtUnitDistances(m: map<string, Value>)
    requires DistanceKey in m
    ensures m[DistanceKey] == Num(0.0) || m[DistanceKey] == Str("0") ==>
      Processed(m) == Ok(m[ScoreKey := Num(1.0)])
    ensures m[DistanceKey] == Num(1.0) || m[DistanceKey] == Str("1") ==>
      Processed(m) == Ok(m[ScoreKey := Num(0.0)])
  {
    FloatOfDigitString(0);
    FloatOfDigitString(1);
  }

  /** Rows ordered nearest first have non-increasing scores. */
  lemma NearestFirstScoresDescend(ms: seq<map<string, Value>>)
    requires forall k :: 0 <= k < |ms| ==> DistanceKey in ms[k] && Float(ms[k][DistanceKey]).Ok?
    requires forall i, j :: 0 <= i < j < |ms| ==>
      Float(ms[i][DistanceKey]).value <= Float(ms[j][DistanceKey]).value
    ensures forall i, j :: 0 <= i < j < |ms| ==>
      Processed(ms[i]).value[ScoreKey].r >= Processed(ms[j]).value[ScoreKey].r
  {
  }

  /** process_paper: flattens a document to its attribute dict and, when the
      row has a distance, writes `similarity_score = 1 - float(distance)`
      into that dict; it returns that same dict. If `float()` raises, the
      dict is left as it was. */
  method ProcessPaper(paper: RawResult) returns (r: Result<Dict>)
    modifies AsDict(paper)
    ensures old(Processed(AsDict(paper).items)).Ok? ==>
      r == Ok(AsDict(paper)) && Processed(old(AsDict(paper).items)) == Ok(AsDict(paper).items)
    ensures old(Processed(AsDict(paper).items)).Err? ==>
      r == Err(old(Processed(AsDict(paper).items)).error) && unchanged(AsDict(paper))
  {
    var d := AsDict(paper);
    ghost var m := d.items;
    if DistanceKey in d.items {
      var distance := Float(d.items[DistanceKey]);
      if distance.Err? {
        assert Processed(m) == Err(distance.error);
        return Err(distance.error);
      }
      d.items := d.items[ScoreKey := Num(1.0 - distance.value)];
      assert Processed(m) == Ok(d.items);
    } else {
      assert Processed(m) == Ok(d.items);
    }
    r := Ok(d);
  }

  function Dicts(rows: seq<RawResult>): set<Dict> {
    set k | 0 <= k < |rows| :: AsDict(rows[k])
  }

  /** Taking one more row adds that row's dict to the dicts of the rows before it. */
  lemma DictsSnoc(rows: seq<RawResult>, j: int)
    requires 0 <= j < |rows|
    ensures Dicts(rows[..j + 1]) == Dicts(rows[..j]) + {AsDict(rows[j])}
  {
    assert rows[..j + 1] == rows[..j] + [rows[j]];
    forall d | d in Dicts(rows[..j + 1])
      ensures d in Dicts(rows[..j]) + {AsDict(rows[j])}
    {
      var k :| 0 <= k < j + 1 && AsDict(rows[..j + 1][k]) == d;
      if k < j {
        assert rows[..j][k] == rows[k];
      }
    }
    forall d | d in Dicts(rows[..j])
      ensures d in Dicts(rows[..j + 1])
    {
      var k :| 0 <= k < j && AsDict(rows[..j][k]) == d;
      assert rows[..j + 1][k] == rows[k];
    }
    assert rows[..j + 1][j] == rows[j];
  }

  /** The fields each row's dict holds, row for row. */
  function Items(rows: seq<RawResult>): (ms: seq<map<string, Value>>)
    reads Dicts(rows)
    ensures |ms| == |rows|
    ensures forall k :: 0 <= k < |rows| ==> ms[k] == AsDict(rows[k]).items
  {
    seq(|rows|, k requires 0 <= k < |rows| reads Dicts(rows) => AsDict(rows[k]).items)
  }

  /** Each of the first `j` rows can be processed, judged on the fields
      `entry` they had before any of them was. */
  predicate ProcessableBefore(entry: seq<map<string, Value>>, j: int) {
    forall k :: 0 <= k < j && k < |entry| ==> Processed(entry[k]).Ok?
  }

  /** Dict `d`, which held `before`, holds its processed fields if it is in
      `done`, and still holds `before` otherwise. */
  predicate RowState(d: Dict, before: map<string, Value>, done: set<Dict>)
    reads d
  {
    if d in done then Processed(before) == Ok(d.items) else d.items == before
  }

  /** Every row's dict is in the state `RowState` describes, measured against
      the fields `entry` the rows held before processing began. */
  predicate ProcessedFrom(rows: seq<RawResult>, entry: seq<map<string, Value>>, done: set<Dict>)
    requires |entry| == |rows|
    reads Dicts(rows)
  {
    forall k :: 0 <= k < |rows| ==> RowState(AsDict(rows[k]), entry[k], done)
  }

  /** Read as values: what `ProcessedFrom` says of the fields the rows hold now. */
  lemma ProcessedFromItems(rows: seq<RawResult>, entry: seq<map<string, Value>>, done: set<Dict>)
    requires |entry| == |rows| && ProcessedFrom(rows, entry, done)
    ensures forall k :: 0 <= k < |rows| ==>
      if AsDict(rows[k]) in done then Processed(entry[k]) == Ok(Items(rows)[k]) else Items(rows)[k] == entry[k]
  {
    forall k | 0 <= k < |rows|
      ensures if AsDict(rows[k]) in done then Processed(entry[k]) == Ok(Items(rows)[k]) else Items(rows)[k] == entry[k]
    {
      assert RowState(AsDict(rows[k]), entry[k], done);
    }
  }

  /** Processing the dict `d` of row `i` (which held `before[i]`) and nothing
      else moves every row from the state `done` describes to the state
      `done + {d}` describes. */
  lemma ProcessedFromStep(rows: seq<RawResult>, entry: seq<map<string, Value>>, done: set<Dict>,
                          before: seq<map<string, Value>>, i: int)
    requires |entry| == |rows| == |before| && 0 <= i < |rows|
    requires forall k :: 0 <= k < |rows| ==>
      if AsDict(rows[k]) in done then Processed(entry[k]) == Ok(before[k]) else before[k] == entry[k]
    requires forall k :: 0 <= k < |rows| && AsDict(rows[k]) == AsDict(rows[i]) ==> before[k] == before[i]
    requires Processed(before[i]) == Ok(AsDict(rows[i]).items)
    requires forall k :: 0 <= k < |rows| && AsDict(rows[k]) != AsDict(rows[i]) ==> AsDict(rows[k]).items == before[k]
    requires AsDict(rows[i]) in done ==> Processed(before[i]) == Ok(before[i])
    ensures ProcessedFrom(rows, entry, done + {AsDict(rows[i])})
  {
    forall k | 0 <= k < |rows|
      ensures RowState(AsDict(rows[k]), entry[k], done + {AsDict(rows[i])})
    {
    }
  }

  /** One step of `PrepareResponse`: processes row `i`, taking the rows'
      dicts from the state `done` describes to the state `done + {d}`
      describes, or leaving them as they were when the row fails. */
  method ProcessRow(rows: seq<RawResult>, i: int, ghost entry: seq<map<string, Value>>, ghost done: set<Dict>)
    returns (p: Result<Dict>)
    requires 0 <= i < |rows| && |entry| == |rows|
    requires ProcessedFrom(rows, entry, done)
    modifies AsDict(rows[i])
    ensures p.Ok? ==> p.value == AsDict(rows[i]) && Processed(entry[i]).Ok?
    ensures p.Ok? ==> ProcessedFrom(rows, entry, done + {AsDict(rows[i])})
    ensures p.Err? ==> AsDict(rows[i]) !in done && Processed(entry[i]) == Err(p.error)
    ensures p.Err? ==> ProcessedFrom(rows, entry, done)
  {
    var d := AsDict(rows[i]);
    assert d in Dicts(rows);
    ghost var current := Items(rows);
    ProcessedFromItems(rows, entry, done);
    if d in done {
      ProcessedIdempotent(entry[i]);
    }
    p := ProcessPaper(rows[i]);
    if p.Err? {
      assert ProcessedFrom(rows, entry, done);
      return;
    }
    assert forall k :: 0 <= k < |rows| && AsDict(rows[k]) != d ==> AsDict(rows[k]).items == current[k];
    ProcessedFromStep(rows, entry, done, current, i);
  }

  /** prepare_response: processes the rows in order and answers with the given
      total and the processed dicts, row for row. A row whose distance
      `float()` rejects aborts it: the dicts of the rows before it stay
      processed, the others untouched. A dict listed twice is processed
      twice, to no effect. */
  method PrepareResponse(total: int, results: SearchResults) returns (r: Result<Response>)
    modifies Dicts(Rows(results))
    ensures r.Ok? <==> ProcessableBefore(old(Items(Rows(results))), |Rows(results)|)
    ensures r.Ok? ==> r.value.total == total && |r.value.papers| == |Rows(results)|
    ensures r.Ok? ==> forall k :: 0 <= k < |Rows(results)| ==>
      r.value.papers[k] == AsDict(Rows(results)[k]) &&
      old(Processed(AsDict(Rows(results)[k]).items)) == Ok(r.value.papers[k].items)
    ensures r.Err? ==>
      exists j :: 0 <= j < |Rows(results)| &&
        old(Processed(AsDict(Rows(results)[j]).items)) == Err(r.error) &&
        ProcessableBefore(old(Items(Rows(results))), j) &&
        ProcessedFrom(Rows(results), old(Items(Rows(results))), Dicts(Rows(results)[..j]))
  {
    var rows := Rows(results);
    var papers: seq<Dict> := [];
    ghost var entry := Items(rows);
    ghost var done: set<Dict> := {};
    var i := 0;
    while i < |rows|
      invariant 0 <= i <= |rows|
      invariant entry == old(Items(rows))
      invariant |papers| == i
      invariant forall k :: 0 <= k < i ==> papers[k] == AsDict(rows[k])
      invariant done == Dicts(rows[..i])
      invariant forall k :: 0 <= k < i ==> AsDict(rows[k]) in done
      invariant ProcessableBefore(entry, i)
      invariant ProcessedFrom(rows, entry, done)
    {
      var p := ProcessRow(rows, i, entry, done);
      if p.Err? {
        assert ProcessedFrom(rows, entry, done);
        return Err(p.error);
      }
      DictsSnoc(rows, i);
      done := done + {AsDict(rows[i])};
      papers := papers + [p.value];
      i := i + 1;
    }
    r := Ok(Response(total, papers));
  }
}
