/** The comma-separated selector parameters of the paper-listing route:
    `[v for v in s.split(",") if v]`, and the filter built from two of them. */
module Selectors {
  import opened Filters

  /** Python `s.split(sep)` for a one-character separator: the pieces between
      separators, always at least one. */
  function Split(s: string, sep: char): (r: seq<string>)
    ensures |r| >= 1
    ensures forall k :: 0 <= k < |r| ==> sep !in r[k]
  {
    if s == [] then [""]
    else
      var rest := Split(s[1..], sep);
      if s[0] == sep then [""] + rest else [[s[0]] + rest[0]] + rest[1..]
  }

  /** Python `sep.join(pieces)`. */
  function Join(pieces: seq<string>, sep: char): string
    requires |pieces| >= 1
  {
    if |pieces| == 1 then pieces[0] else pieces[0] + [sep] + Join(pieces[1..], sep)
  }

  /** Joining the pieces with the separator gives back the string. */
  lemma {:induction false} JoinSplit(s: string, sep: char)
    ensures Join(Split(s, sep), sep) == s
  {
    if s != [] {
      var rest := Split(s[1..], sep);
      JoinSplit(s[1..], sep);
      if s[0] != sep {
        if |rest| == 1 {
          assert Split(s, sep) == [[s[0]] + rest[0]];
        } else {
          assert Split(s, sep)[1..] == rest[1..];
        }
      }
    }
  }

  lemma SplitLeadingSep(t: string, sep: char)
    ensures Split([sep] + t, sep) == [""] + Split(t, sep)
  {
    assert ([sep] + t)[1..] == t;
  }

  lemma {:induction false} SplitPrefix(p: string, t: string, sep: char)
    requires sep !in p
    ensures Split(p + t, sep) == [p + Split(t, sep)[0]] + Split(t, sep)[1..]
  {
    if p != [] {
      var u := p + t;
      assert u[0] == p[0] && u[1..] == p[1..] + t;
      SplitPrefix(p[1..], t, sep);
      var rest := Split(u[1..], sep);
      assert rest[0] == p[1..] + Split(t, sep)[0];
      assert rest[1..] == Split(t, sep)[1..];
      assert Split(u, sep) == [[p[0]] + rest[0]] + rest[1..];
      assert [p[0]] + (p[1..] + Split(t, sep)[0]) == p + Split(t, sep)[0];
    } else {
      assert p + t == t;
      var r := Split(t, sep);
      assert p + r[0] == r[0];
      assert r == [r[0]] + r[1..];
    }
  }

  /** Splitting pieces that hold no separator, after joining them, gives the
      pieces back. */
  lemma {:induction false} SplitJoin(pieces: seq<string>, sep: char)
    requires |pieces| >= 1
    requires forall k :: 0 <= k < |pieces| ==> sep !in pieces[k]
    ensures Split(Join(pieces, sep), sep) == pieces
  {
    if |pieces| == 1 {
      SplitPrefix(pieces[0], [], sep);
      assert pieces[0] + [] == pieces[0];
    } else {
      var tail := Join(pieces[1..], sep);
      SplitJoin(pieces[1..], sep);
      assert pieces[0] + [sep] + tail == pieces[0] + ([sep] + tail);
      SplitPrefix(pieces[0], [sep] + tail, sep);
      SplitLeadingSep(tail, sep);
      assert pieces[0] + "" == pieces[0];
      assert pieces == [pieces[0]] + pieces[1..];
    }
  }

  /** `[p for p in pieces if p]`. */
  function DropEmpty(pieces: seq<string>): (r: seq<string>)
    ensures |r| <= |pieces|
    ensures forall k :: 0 <= k < |r| ==> r[k] != ""
    ensures forall x :: x in r <==> x in pieces && x != ""
    ensures (forall k :: 0 <= k < |pieces| ==> pieces[k] != "") ==> r == pieces
    ensures multiset(r) == multiset(pieces)["" := 0]
  {
    if pieces == [] then []
    else
      assert pieces == [pieces[0]] + pieces[1..];
      if pieces[0] == "" then DropEmpty(pieces[1..])
      else [pieces[0]] + DropEmpty(pieces[1..])
  }

  /** Dropping the empty pieces of two lists one after the other is dropping
      them from the whole: the kept pieces stay in their order. */
  lemma {:induction false} DropEmptyAppend(a: seq<string>, b: seq<string>)
    ensures DropEmpty(a + b) == DropEmpty(a) + DropEmpty(b)
  {
    if a != [] {
      assert (a + b)[0] == a[0] && (a + b)[1..] == a[1..] + b;
      DropEmptyAppend(a[1..], b);
    } else {
      assert a + b == b;
    }
  }

  /** The selector values of one comma-separated query parameter. */
  function SelectorValues(s: string): (r: seq<string>)
    ensures forall k :: 0 <= k < |r| ==> r[k] != "" && ',' !in r[k]
  {
    var r := DropEmpty(Split(s, ','));
    assert forall k :: 0 <= k < |r| ==> r[k] in r;
    r
  }

  /** No selector value is empty, none holds a comma, and each one is a piece
      of the parameter between commas. */
  lemma SelectorValuesWellFormed(s: string)
    ensures forall k :: 0 <= k < |SelectorValues(s)| ==>
      SelectorValues(s)[k] != "" && ',' !in SelectorValues(s)[k] && SelectorValues(s)[k] in Split(s, ',')
  {
    var r := SelectorValues(s);
    forall k | 0 <= k < |r| ensures r[k] in Split(s, ',') {
      assert r[k] in r;
    }
  }

  predicate AllEmpty(pieces: seq<string>) {
    forall k :: 0 <= k < |pieces| ==> pieces[k] == ""
  }

  predicate AllSep(s: string, sep: char) {
    forall k :: 0 <= k < |s| ==> s[k] == sep
  }

  lemma {:induction false} SplitAllEmpty(s: string, sep: char)
    ensures AllEmpty(Split(s, sep)) <==> AllSep(s, sep)
  {
    if s != [] {
      SplitAllEmpty(s[1..], sep);
      var rest := Split(s[1..], sep);
      if s[0] == sep {
        assert Split(s, sep) == [""] + rest;
        assert AllEmpty([""] + rest) <==> AllEmpty(rest) by {
          assert forall k :: 0 <= k < |rest| ==> ([""] + rest)[k + 1] == rest[k];
        }
        assert AllSep(s, sep) <==> AllSep(s[1..], sep) by {
          assert forall k :: 0 <= k < |s[1..]| ==> s[k + 1] == s[1..][k];
        }
      } else {
        assert Split(s, sep)[0] != "";
      }
    }
  }

  /** A parameter yields no selector value exactly when it consists of commas
      only; in particular the default `""` yields none. */
  lemma SelectorValuesEmpty(s: string)
    ensures SelectorValues(s) == [] <==> AllSep(s, ',')
  {
    var pieces := Split(s, ',');
    SplitAllEmpty(s, ',');
    if SelectorValues(s) == [] {
      forall k | 0 <= k < |pieces| ensures pieces[k] == "" {
        assert pieces[k] in pieces;
      }
    } else {
      assert SelectorValues(s)[0] in SelectorValues(s);
    }
  }

  /** Values without commas, joined with commas into one parameter, come back
      unchanged and in order. */
  lemma SelectorValuesOfJoin(values: seq<string>)
    requires |values| >= 1
    requires forall k :: 0 <= k < |values| ==> values[k] != "" && ',' !in values[k]
    ensures SelectorValues(Join(values, ',')) == values
  {
    SplitJoin(values, ',');
  }

  function AsSelectors(values: seq<string>): (r: seq<Selector>)
    ensures |r| == |values|
    ensures forall k :: 0 <= k < |values| ==> r[k] == StrSel(values[k])
  {
    seq(|values|, k requires 0 <= k < |values| => StrSel(values[k]))
  }

  /** The filter of the paper-listing route for its `years` and `categories`
      query parameters. */
  function ListingFilter(years: string, categories: string): (p: Predicate)
    ensures p.TagIn? ==> forall k :: 0 <= k < |p.values| ==> p.values[k] != "" && ',' !in p.values[k]
    ensures p.And? ==>
      && p.left.TagIn? && p.right.TagIn?
      && (forall k :: 0 <= k < |p.left.values| ==> p.left.values[k] != "" && ',' !in p.left.values[k])
      && (forall k :: 0 <= k < |p.right.values| ==> p.right.values[k] != "" && ',' !in p.right.values[k])
  {
    var ys, cs := SelectorValues(years), SelectorValues(categories);
    assert ToStrs(AsSelectors(ys)) == ys;
    assert ToStrs(AsSelectors(cs)) == cs;
    BuildFilterExpression(AsSelectors(ys), AsSelectors(cs))
  }

  /** The listing filter is the universal one exactly when both parameters are
      empty or commas only. */
  lemma ListingFilterUniversal(years: string, categories: string)
    ensures ListingFilter(years, categories) == Universal <==> AllSep(years, ',') && AllSep(categories, ',')
  {
    SelectorValuesEmpty(years);
    SelectorValuesEmpty(categories);
  }

  /** Each selector value reaches the filter as its own tag string, in order. */
  lemma ListingFilterTags(years: string, categories: string)
    ensures SelectorValues(years) != [] && SelectorValues(categories) == [] ==>
      ListingFilter(years, categories) == TagIn(YearField, SelectorValues(years))
    ensures SelectorValues(years) == [] && SelectorValues(categories) != [] ==>
      ListingFilter(years, categories) == TagIn(CategoriesField, SelectorValues(categories))
    ensures SelectorValues(years) != [] && SelectorValues(categories) != [] ==>
      ListingFilter(years, categories) ==
        And(TagIn(YearField, SelectorValues(years)), TagIn(CategoriesField, SelectorValues(categories)))
  {
    assert ToStrs(AsSelectors(SelectorValues(years))) == SelectorValues(years);
    assert ToStrs(AsSelectors(SelectorValues(categories))) == SelectorValues(categories);
  }
}
