/** The record preprocessing of the bulk loader: before a paper is written to
    the index, the commas separating its categories become `|`, the separator
    the index's tag field splits on. */
module Loader {
  import opened PyData

  const CategoriesKey: string := "categories"

  /** Python `s.replace(from, to)` for one-character arguments. */
  function ReplaceChar(s: string, from: char, to: char): (r: string)
    ensures |r| == |s|
    ensures forall k :: 0 <= k < |s| ==> r[k] == (if s[k] == from then to else s[k])
  {
    if s == [] then [] else [if s[0] == from then to else s[0]] + ReplaceChar(s[1..], from, to)
  }

  /** After the replacement no `from` is left, provided it differs from `to`. */
  lemma ReplaceCharRemoves(s: string, from: char, to: char)
    requires from != to
    ensures from !in ReplaceChar(s, from, to)
  {
  }

  /** Replacing twice is replacing once. */
  lemma ReplaceCharIdempotent(s: string, from: char, to: char)
    ensures ReplaceChar(ReplaceChar(s, from, to), from, to) == ReplaceChar(s, from, to)
  {
  }

  /** The fields of a paper after `preprocess_paper`, or the exception it
      raises: KeyError without a `categories` field, AttributeError when that
      field is not a string. */
  function Preprocessed(m: map<string, Value>): (r: Result<map<string, Value>>)
    ensures CategoriesKey !in m ==> r == Err(KeyError(CategoriesKey))
    ensures CategoriesKey in m && !m[CategoriesKey].Str? ==> r == Err(AttributeError)
    ensures r.Ok? <==> CategoriesKey in m && m[CategoriesKey].Str?
    ensures r.Ok? ==> r.value.Keys == m.Keys
    ensures r.Ok? ==> forall k :: k in m && k != CategoriesKey ==> r.value[k] == m[k]
    ensures r.Ok? ==> r.value[CategoriesKey].Str? && ',' !in r.value[CategoriesKey].s
    ensures r.Ok? ==> |r.value[CategoriesKey].s| == |m[CategoriesKey].s|
    ensures r.Ok? ==> forall k :: 0 <= k < |m[CategoriesKey].s| ==>
      r.value[CategoriesKey].s[k] == (if m[CategoriesKey].s[k] == ',' then '|' else m[CategoriesKey].s[k])
  {
    if CategoriesKey !in m then Err(KeyError(CategoriesKey))
    else
      match m[CategoriesKey]
      case Str(s) =>
        ReplaceCharRemoves(s, ',', '|');
        Ok(m[CategoriesKey := Str(ReplaceChar(s, ',', '|'))])
      case _ => Err(AttributeError)
  }

  /** Preprocessing a preprocessed paper changes nothing. */
  lemma PreprocessedIdempotent(m: map<string, Value>)
    requires Preprocessed(m).Ok?
    ensures Preprocessed(Preprocessed(m).value) == Preprocessed(m)
  {
    var s := m[CategoriesKey].s;
    ReplaceCharIdempotent(s, ',', '|');
    var m' := Preprocessed(m).value;
    assert m'[CategoriesKey := Str(ReplaceChar(m'[CategoriesKey].s, ',', '|'))] == m';
  }

  /** A category string without commas passes through unchanged, so each
      category name itself is kept as it was. */
  lemma PreprocessedKeepsCategoryNames(m: map<string, Value>)
    requires CategoriesKey in m && m[CategoriesKey].Str? && ',' !in m[CategoriesKey].s
    ensures Preprocessed(m) == Ok(m)
  {
    var s := m[CategoriesKey].s;
    assert ReplaceChar(s, ',', '|') == s;
    assert m[CategoriesKey := Str(s)] == m;
  }

  /** preprocess_paper: rewrites the `categories` field of the paper's dict in
      place and returns that same dict. On a missing or non-string field it
      raises before changing anything. */
  method PreprocessPaper(paper: Dict) returns (r: Result<Dict>)
    modifies paper
    ensures old(Preprocessed(paper.items)).Ok? ==>
      r == Ok(paper) && Preprocessed(old(paper.items)) == Ok(paper.items)
    ensures old(Preprocessed(paper.items)).Err? ==>
      r == Err(old(Preprocessed(paper.items)).error) && unchanged(paper)
  {
    if CategoriesKey !in paper.items {
      return Err(KeyError(CategoriesKey));
    }
    match paper.items[CategoriesKey] {
      case Str(s) =>
        paper.items := paper.items[CategoriesKey := Str(ReplaceChar(s, ',', '|'))];
        r := Ok(paper);
      case _ =>
        r := Err(AttributeError);
    }
  }
}
