/** The pipeline in `main`: every `dl` of the content section becomes a
    category result, successfully parsed housekeeping categories are dropped,
    the results are collected (the first failure aborts), and the categories
    are printed. */
module Scraper {
  import opened Results
  import opened Text
  import opened Catalogue
  import opened Display

  /** The title of the category that is not a list of APIs. */
  const Housekeeping: string := "Various other"

  /** The closure given to `filter`: a failure is always kept, a parsed
      category only when its title is not exactly "Various other". */
  predicate Keep(r: Result<Category>): (b: bool)
    ensures r.Err? ==> b
    ensures r.Ok? ==> (b <==> r.value.title != "Various other")
  {
    match r
    case Ok(c) => c.title != Housekeeping
    case Err(_) => true
  }

  /** `.filter(...)` over the category results, in order. */
  function FilterHousekeeping(rs: seq<Result<Category>>): (out: seq<Result<Category>>)
    ensures |out| <= |rs|
    ensures forall i | 0 <= i < |out| :: Keep(out[i])
  {
    if |rs| == 0 then []
    else (if Keep(rs[0]) then [rs[0]] else []) + FilterHousekeeping(rs[1..])
  }

  /** Filtering works piece by piece, so it keeps the relative order of the
      entries it keeps. */
  lemma {:induction false} FilterAppend(a: seq<Result<Category>>, b: seq<Result<Category>>)
    ensures FilterHousekeeping(a + b) == FilterHousekeeping(a) + FilterHousekeeping(b)
    decreases |a|
  {
    if |a| == 0 {
      assert a + b == b;
    } else {
      var head := if Keep(a[0]) then [a[0]] else [];
      assert (a + b)[0] == a[0];
      assert (a + b)[1..] == a[1..] + b;
      FilterAppend(a[1..], b);
      assert FilterHousekeeping(a + b) == head + (FilterHousekeeping(a[1..]) + FilterHousekeeping(b));
      assert FilterHousekeeping(a) == head + FilterHousekeeping(a[1..]);
    }
  }

  /** The filter removes exactly the successfully parsed housekeeping
      categories: every failure stays. */
  lemma {:induction false} FilterHousekeepingMembers(rs: seq<Result<Category>>)
    ensures forall x :: x in FilterHousekeeping(rs) <==> x in rs && Keep(x)
    decreases |rs|
  {
    if |rs| > 0 {
      FilterHousekeepingMembers(rs[1..]);
      assert rs == [rs[0]] + rs[1..];
    }
  }

  /** The same filter on categories that were all parsed. */
  function WithoutHousekeeping(cats: seq<Category>): (out: seq<Category>)
    ensures |out| <= |cats|
    ensures forall i | 0 <= i < |out| :: out[i].title != Housekeeping
  {
    if |cats| == 0 then []
    else (if cats[0].title != Housekeeping then [cats[0]] else []) + WithoutHousekeeping(cats[1..])
  }

  lemma {:induction false} WithoutHousekeepingMembers(cats: seq<Category>)
    ensures forall c :: c in WithoutHousekeeping(cats) <==> c in cats && c.title != Housekeeping
    decreases |cats|
  {
    if |cats| > 0 {
      WithoutHousekeepingMembers(cats[1..]);
      assert cats == [cats[0]] + cats[1..];
    }
  }

  function Titles(cats: seq<Category>): (ts: seq<string>)
    ensures |ts| == |cats|
    ensures forall i | 0 <= i < |cats| :: ts[i] == cats[i].title
  {
    seq(|cats|, i requires 0 <= i < |cats| => cats[i].title)
  }

  /** Of N categories, k of them titled "Various other", N - k remain. */
  lemma {:induction false} WithoutHousekeepingCount(cats: seq<Category>)
    ensures |WithoutHousekeeping(cats)| == |cats| - multiset(Titles(cats))[Housekeeping]
    decreases |cats|
  {
    if |cats| > 0 {
      assert Titles(cats) == [cats[0].title] + Titles(cats[1..]);
      WithoutHousekeepingCount(cats[1..]);
    }
  }

  /** Collecting a sequence that starts with a success. */
  lemma CollectCons<T>(x: T, rest: seq<Result<T>>)
    ensures Collect([Ok(x)] + rest)
         == if Collect(rest).Ok? then Ok([x] + Collect(rest).value) else Collect(rest)
  {
    assert ([Ok(x)] + rest)[1..] == rest;
  }

  lemma WithoutHousekeepingCons(c: Category, cats: seq<Category>)
    ensures WithoutHousekeeping([c] + cats)
         == (if c.title != Housekeeping then [c] else []) + WithoutHousekeeping(cats)
  {
    assert ([c] + cats)[1..] == cats;
  }

  /** What `CollectFilter` states, for one sequence. */
  predicate FilterCommutes(rs: seq<Result<Category>>)
  {
    Collect(FilterHousekeeping(rs))
      == if Collect(rs).Ok? then Ok(WithoutHousekeeping(Collect(rs).value)) else Collect(rs)
  }

  lemma FilterCommutesErr(e: Error, tail: seq<Result<Category>>)
    ensures FilterCommutes([Err(e)] + tail)
  {
    var rs := [Err(e)] + tail;
    assert rs[1..] == tail;
    assert FilterHousekeeping(rs) == [Err(e)] + FilterHousekeeping(tail);
    assert FilterHousekeeping(rs)[0] == Err(e);
  }

  lemma FilterCommutesOk(c: Category, tail: seq<Result<Category>>)
    requires FilterCommutes(tail)
    ensures FilterCommutes([Ok(c)] + tail)
  {
    var rs := [Ok(c)] + tail;
    var filtered := FilterHousekeeping(tail);
    assert rs[1..] == tail;
    CollectCons(c, tail);
    if c.title != Housekeeping {
      assert FilterHousekeeping(rs) == [Ok(c)] + filtered;
      CollectCons(c, filtered);
    } else {
      assert FilterHousekeeping(rs) == filtered;
    }
    if Collect(tail).Ok? {
      var v := Collect(tail).value;
      WithoutHousekeepingCons(c, v);
      if c.title == Housekeeping {
        assert [] + WithoutHousekeeping(v) == WithoutHousekeeping(v);
      }
    }
  }

  /** Filtering and then collecting equals collecting and then filtering:
      the filter never hides a failure, so the first failure still decides
      the error, and otherwise exactly the housekeeping categories go. */
  lemma {:induction false} CollectFilter(rs: seq<Result<Category>>)
    ensures Collect(FilterHousekeeping(rs))
         == if Collect(rs).Ok? then Ok(WithoutHousekeeping(Collect(rs).value)) else Collect(rs)
    decreases |rs|
  {
    if |rs| > 0 {
      var tail := rs[1..];
      assert rs == [rs[0]] + tail;
      match rs[0]
      case Err(e) =>
        FilterCommutesErr(e, tail);
      case Ok(c) =>
        CollectFilter(tail);
        FilterCommutesOk(c, tail);
    }
  }

  /** `section.select(&DL).map(Category::from_html)`. */
  function CategoryResults(dls: seq<Element>): (rs: seq<Result<Category>>)
    ensures |rs| == |dls|
    ensures forall i | 0 <= i < |dls| :: rs[i] == CategoryFromHtml(dls[i])
  {
    seq(|dls|, i requires 0 <= i < |dls| => CategoryFromHtml(dls[i]))
  }

  /** The catalogue of a content section, given its `dl` elements in
      document order: the error of the first `dl` that fails, or the parsed
      categories minus the housekeeping ones, in document order. */
  function Extract(dls: seq<Element>): (r: Result<seq<Category>>)
    ensures r.Ok? <==> forall i | 0 <= i < |dls| :: CategoryFromHtml(dls[i]).Ok?
    ensures r.Err? ==>
      exists i | 0 <= i < |dls| ::
        && CategoryFromHtml(dls[i]) == Err(r.error)
        && forall j | 0 <= j < i :: CategoryFromHtml(dls[j]).Ok?
    ensures r.Ok? ==> r.value == WithoutHousekeeping(Collect(CategoryResults(dls)).value)
  {
    var rs := CategoryResults(dls);
    CollectFilter(rs);
    var r := Collect(FilterHousekeeping(rs));
    assert r.Err? ==> rs[FirstFailure(rs)] == Err(r.error);
    r
  }

  /** When every `dl` parses, N lists of which k are titled "Various other"
      give N - k categories. */
  lemma ExtractCount(dls: seq<Element>)
    requires forall i | 0 <= i < |dls| :: CategoryFromHtml(dls[i]).Ok?
    ensures Extract(dls).Ok?
    ensures |Extract(dls).value|
         == |dls| - multiset(Titles(Collect(CategoryResults(dls)).value))[Housekeeping]
  {
    WithoutHousekeepingCount(Collect(CategoryResults(dls)).value);
  }

  /** `main` after the page is loaded and the content section located: on
      the first failing `dl` nothing is printed and the error is returned;
      otherwise the printed text of every kept category, in order. */
  method Run(dls: seq<Element>) returns (r: Result<string>)
    ensures r.Err? <==> exists i | 0 <= i < |dls| :: CategoryFromHtml(dls[i]).Err?
    ensures r.Err? ==> r.error == Extract(dls).error
    ensures r.Ok? ==> r.value == Report(Extract(dls).value)
  {
    var cats :- Extract(dls);
    var out := PrintCategories(cats);
    return Ok(out);
  }

  // The list `<dl><dt>Storage</dt><dd><a href="/storage">LocalStorage</a></dd></dl>`.
  const StorageLink := Element(["LocalStorage"], Some("/storage"), [], [], [])
  const StorageEntry := Element([], None, [], [], [StorageLink])
  const StorageList := Element([], None, [Element(["Storage"], None, [], [], [])], [StorageEntry], [StorageLink])
  const StorageApi := Api("LocalStorage", "/storage")

  lemma StorageCategory()
    ensures CategoryFromHtml(StorageList) == Ok(Category("Storage", [StorageApi]))
  {
    assert ApiFromHtml(StorageEntry) == Ok(StorageApi);
    assert Items(StorageList).Ok?;
    assert Items(StorageList).value == [StorageApi];
  }

  lemma StorageItemLine()
    ensures ItemLine(StorageApi) == "  - [LocalStorage](/storage)"
  {
    assert ApiText(StorageApi) == "[LocalStorage](/storage)";
  }

  lemma StorageLines()
    ensures CategoryLines(Category("Storage", [StorageApi]))
         == ["# Storage", "  - [LocalStorage](/storage)"]
  {
    StorageItemLine();
    assert ItemLines([StorageApi]) == [ItemLine(StorageApi)];
    assert HeaderLine("Storage") == "# Storage";
  }

  lemma StorageText()
    ensures CategoryText(Category("Storage", [StorageApi])) == "# Storage\n  - [LocalStorage](/storage)\n"
  {
    StorageLines();
    var l0, l1 := "# Storage", "  - [LocalStorage](/storage)";
    assert Unlines([l1]) == l1 + "\n" by { assert [l1][1..] == []; }
    assert Unlines([l0, l1]) == l0 + "\n" + Unlines([l1]) by { assert [l0, l1][1..] == [l1]; }
  }

  /** The Storage list gives one category, printed as its header, one item
      line and the empty line `println!` adds. */
  lemma StorageExample()
    ensures Extract([StorageList]) == Ok([Category("Storage", [StorageApi])])
    ensures Report(Extract([StorageList]).value) == "# Storage\n  - [LocalStorage](/storage)\n\n"
  {
    var c := Category("Storage", [StorageApi]);
    StorageCategory();
    StorageText();
    assert Collect(CategoryResults([StorageList])).value == [c];
    assert WithoutHousekeeping([c]) == [c];
    assert Report([c]) == CategoryText(c) + "\n" + Report([]);
  }
}
