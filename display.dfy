/** The text form of the catalogue: `Display for Api`, `Display for
    Category`, the loop in `main` that prints every category, and a reader
    for that text that recovers the catalogue. */
module Display {
  import opened Results
  import opened Text
  import opened Catalogue

  /** `Display for Api`: a Markdown link, the name in brackets and the link
      in parentheses. */
  function ApiText(a: Api): (r: string)
    ensures |r| == |a.name| + |a.spec| + 4
    ensures r[0] == '[' && r[|r| - 1] == ')'
  {
    "[" + a.name + "](" + a.spec + ")"
  }

  function HeaderLine(title: string): string
  {
    "# " + title
  }

  function ItemLine(a: Api): string
  {
    "  - " + ApiText(a)
  }

  function ItemLines(items: seq<Api>): (ls: seq<string>)
    ensures |ls| == |items|
    ensures forall i | 0 <= i < |items| :: ls[i] == ItemLine(items[i])
  {
    seq(|items|, i requires 0 <= i < |items| => ItemLine(items[i]))
  }

  /** The lines of a category's text, without their newlines. */
  function CategoryLines(c: Category): (ls: seq<string>)
  {
    [HeaderLine(c.title)] + ItemLines(c.items)
  }

  /** What `Display for Category` writes: its header line, newline
      terminated, and then its item lines. */
  function CategoryText(c: Category): (r: string)
    ensures r == HeaderLine(c.title) + "\n" + Unlines(ItemLines(c.items))
  {
    assert CategoryLines(c)[1..] == ItemLines(c.items);
    Unlines(CategoryLines(c))
  }

  /** `Display for Category::fmt`: the header, then one item line per API,
      appended in item order. */
  method FormatCategory(c: Category) returns (out: string)
    ensures out == CategoryText(c)
  {
    out := "# " + c.title + "\n";
    ghost var lines := [HeaderLine(c.title)];
    var i := 0;
    while i < |c.items|
      invariant 0 <= i <= |c.items|
      invariant lines == CategoryLines(Category(c.title, c.items[..i]))
      invariant out == Unlines(lines)
    {
      var api := c.items[i];
      UnlinesAppend(lines, [ItemLine(api)]);
      out := out + "  - " + ApiText(api) + "\n";
      lines := lines + [ItemLine(api)];
      i := i + 1;
    }
    assert c.items[..i] == c.items;
  }

  /** The fields may be written as text and read back: no field holds a
      newline, and no name holds the `]` that ends it. */
  predicate PrintableApi(a: Api)
  {
    '\n' !in a.name && ']' !in a.name && '\n' !in a.spec
  }

  predicate PrintableCategory(c: Category)
  {
    '\n' !in c.title && forall i | 0 <= i < |c.items| :: PrintableApi(c.items[i])
  }

  predicate Printable(cats: seq<Category>)
  {
    forall i | 0 <= i < |cats| :: PrintableCategory(cats[i])
  }

  lemma CategoryLinesNoNewline(c: Category)
    requires '\n' !in c.title
    requires forall i | 0 <= i < |c.items| :: '\n' !in c.items[i].name && '\n' !in c.items[i].spec
    ensures forall i | 0 <= i < |CategoryLines(c)| :: '\n' !in CategoryLines(c)[i]
  {
    var ls := CategoryLines(c);
    forall i | 0 <= i < |ls|
      ensures '\n' !in ls[i]
    {
      if i > 0 {
        var a := c.items[i - 1];
        assert ls[i] == "  - [" + a.name + "](" + a.spec + ")";
      } else {
        assert ls[0] == "# " + c.title;
      }
    }
  }

  /** A category's text is exactly 1 + |items| newline-terminated lines: the
      header, then one line per API in order. */
  lemma CategoryTextLines(c: Category)
    requires '\n' !in c.title
    requires forall i | 0 <= i < |c.items| :: '\n' !in c.items[i].name && '\n' !in c.items[i].spec
    ensures Lines(CategoryText(c)) == CategoryLines(c)
    ensures |Lines(CategoryText(c))| == 1 + |c.items|
    ensures Lines(CategoryText(c))[0] == "# " + c.title
    ensures forall i | 0 <= i < |c.items| :: Lines(CategoryText(c))[i + 1] == "  - " + ApiText(c.items[i])
  {
    CategoryLinesNoNewline(c);
    LinesOfUnlines(CategoryLines(c));
  }

  /** The text `main` prints: each category through `println!`, so each
      category's text is followed by one more newline. */
  function Report(cats: seq<Category>): (r: string)
    ensures r == Unlines(ReportLines(cats))
  {
    if |cats| == 0 then ""
    else
      var cl := CategoryLines(cats[0]);
      UnlinesAppend(cl + [""], ReportLines(cats[1..]));
      UnlinesAppend(cl, [""]);
      CategoryText(cats[0]) + "\n" + Report(cats[1..])
  }

  lemma {:induction false} ReportLinesSnoc(cats: seq<Category>, c: Category)
    ensures ReportLines(cats + [c]) == ReportLines(cats) + (CategoryLines(c) + [""])
    decreases |cats|
  {
    if |cats| == 0 {
      assert cats + [c] == [c];
    } else {
      assert (cats + [c])[0] == cats[0];
      assert (cats + [c])[1..] == cats[1..] + [c];
      ReportLinesSnoc(cats[1..], c);
    }
  }

  lemma ReportSnoc(cats: seq<Category>, c: Category)
    ensures Report(cats + [c]) == Report(cats) + CategoryText(c) + "\n"
  {
    var cl := CategoryLines(c);
    ReportLinesSnoc(cats, c);
    UnlinesAppend(ReportLines(cats), cl + [""]);
    UnlinesAppend(cl, [""]);
    assert Unlines([""]) == "\n" by { assert [""][1..] == []; }
  }

  /** The printing loop in `main`: one `println!("{}", category)` per
      category, in order. */
  method PrintCategories(cats: seq<Category>) returns (out: string)
    ensures out == Report(cats)
  {
    out := "";
    var i := 0;
    while i < |cats|
      invariant 0 <= i <= |cats|
      invariant out == Report(cats[..i])
    {
      var text := FormatCategory(cats[i]);
      ReportSnoc(cats[..i], cats[i]);
      assert cats[..i + 1] == cats[..i] + [cats[i]];
      out := out + text + "\n";
      i := i + 1;
    }
    assert cats[..i] == cats;
  }

  /** The lines of the report: each category's lines and then an empty
      line. */
  function ReportLines(cats: seq<Category>): seq<string>
  {
    if |cats| == 0 then [] else CategoryLines(cats[0]) + [""] + ReportLines(cats[1..])
  }

  // Reading the report back.

  predicate StartsWith(s: string, prefix: string)
  {
    |prefix| <= |s| && s[..|prefix|] == prefix
  }

  /** Reads `[name](spec)`, the name ending at its first `]`. */
  function ParseApi(t: string): Option<Api>
  {
    if |t| < 2 || t[0] != '[' || t[|t| - 1] != ')' then None
    else
      var inner := t[1..|t| - 1];
      var i := IndexOf(inner, ']');
      if i + 1 < |inner| && inner[i + 1] == '(' then Some(Api(inner[..i], inner[i + 2..]))
      else None
  }

  /** Reads item lines up to the empty line that closes a category; returns
      the APIs and the lines after that empty line. */
  function ParseItems(ls: seq<string>): (r: Option<(seq<Api>, seq<string>)>)
    ensures r.Some? ==> |r.value.1| < |ls|
  {
    if |ls| == 0 then None
    else if ls[0] == "" then Some(([], ls[1..]))
    else if !StartsWith(ls[0], "  - ") then None
    else
      match ParseApi(ls[0][4..])
      case None => None
      case Some(a) =>
        match ParseItems(ls[1..])
        case None => None
        case Some(more) => Some(([a] + more.0, more.1))
  }

  /** Reads a sequence of category blocks. */
  function ParseCategories(ls: seq<string>): Option<seq<Category>>
    decreases |ls|
  {
    if |ls| == 0 then Some([])
    else if !StartsWith(ls[0], "# ") then None
    else
      match ParseItems(ls[1..])
      case None => None
      case Some(block) =>
        match ParseCategories(block.1)
        case None => None
        case Some(cats) => Some([Category(ls[0][2..], block.0)] + cats)
  }

  function ParseReport(s: string): Option<seq<Category>>
  {
    ParseCategories(Lines(s))
  }

  /** Reading an API's text gives the API back. */
  lemma ParseApiText(a: Api)
    requires ']' !in a.name
    ensures ParseApi(ApiText(a)) == Some(a)
  {
    var t := ApiText(a);
    assert t == "[" + (a.name + [']'] + "(" + a.spec) + ")";
    assert t[0] == '[' && t[|t| - 1] == ')';
    var inner := t[1..|t| - 1];
    assert inner == a.name + [']'] + ("(" + a.spec);
    IndexOfFirst(a.name, ']', "(" + a.spec);
    var i := IndexOf(inner, ']');
    assert i == |a.name|;
    assert inner[i + 1] == '(';
    assert inner[..i] == a.name;
    assert inner[i + 2..] == a.spec;
  }

  lemma {:induction false} ParseItemsLines(items: seq<Api>, rest: seq<string>)
    requires forall i | 0 <= i < |items| :: ']' !in items[i].name
    ensures ParseItems(ItemLines(items) + [""] + rest) == Some((items, rest))
    decreases |items|
  {
    var ls := ItemLines(items) + [""] + rest;
    if |items| == 0 {
      assert ls == [""] + rest;
    } else {
      var a := items[0];
      var tail := items[1..];
      assert ls[0] == "  - " + ApiText(a);
      assert ls[0][..4] == "  - " && ls[0] != "";
      assert ls[0][4..] == ApiText(a);
      ParseApiText(a);
      assert [a] + tail == items;
      assert ls[1..] == ItemLines(tail) + [""] + rest;
      ParseItemsLines(tail, rest);
    }
  }

  lemma PrintableTail(cats: seq<Category>)
    requires |cats| > 0 && Printable(cats)
    ensures PrintableCategory(cats[0]) && Printable(cats[1..])
  {
    forall i | 0 <= i < |cats| - 1
      ensures PrintableCategory(cats[1..][i])
    {
      assert PrintableCategory(cats[i + 1]);
    }
  }

  lemma ParseCategoryBlock(c: Category, rest: seq<string>, tail: seq<Category>)
    requires PrintableCategory(c)
    requires ParseCategories(rest) == Some(tail)
    ensures ParseCategories(CategoryLines(c) + [""] + rest) == Some([c] + tail)
  {
    var items := ItemLines(c.items);
    var ls := CategoryLines(c) + [""] + rest;
    assert ls == [HeaderLine(c.title)] + (items + [""] + rest);
    assert ls[1..] == items + [""] + rest;
    ParseItemsLines(c.items, rest);
    assert ls[0][..2] == "# ";
    assert ls[0][2..] == c.title;
  }

  lemma {:induction false} ParseReportLines(cats: seq<Category>)
    requires Printable(cats)
    ensures ParseCategories(ReportLines(cats)) == Some(cats)
    decreases |cats|
  {
    if |cats| > 0 {
      PrintableTail(cats);
      ParseReportLines(cats[1..]);
      ParseCategoryBlock(cats[0], ReportLines(cats[1..]), cats[1..]);
      assert [cats[0]] + cats[1..] == cats;
    }
  }

  lemma {:induction false} ReportLinesNoNewline(cats: seq<Category>)
    requires Printable(cats)
    ensures forall i | 0 <= i < |ReportLines(cats)| :: '\n' !in ReportLines(cats)[i]
    decreases |cats|
  {
    if |cats| > 0 {
      var c := cats[0];
      PrintableTail(cats);
      var cl := CategoryLines(c);
      assert forall i | 0 <= i < |c.items| :: PrintableApi(c.items[i]);
      CategoryLinesNoNewline(c);
      ReportLinesNoNewline(cats[1..]);
      var ls := ReportLines(cats);
      assert ls == cl + [""] + ReportLines(cats[1..]);
    }
  }

  /** For printable catalogues the printed format is lossless: reading the
      report back recovers every title, name and link, in order. */
  lemma ReportRoundTrip(cats: seq<Category>)
    requires Printable(cats)
    ensures ParseReport(Report(cats)) == Some(cats)
  {
    ReportLinesNoNewline(cats);
    LinesOfUnlines(ReportLines(cats));
    ParseReportLines(cats);
  }

  /** Without the printable conditions the format is ambiguous: a `]` in a
      name can make two different APIs print the same text. */
  lemma ApiTextAmbiguous()
    ensures Api("a](x", "y") != Api("a", "x](y")
    ensures ApiText(Api("a](x", "y")) == ApiText(Api("a", "x](y"))
  {
    assert ApiText(Api("a](x", "y")) == "[a](x](y)";
    assert ApiText(Api("a", "x](y")) == "[a](x](y)";
  }

  /** ... and a newline in a title can make two different catalogues print
      the same report. */
  lemma ReportAmbiguous()
    ensures [Category("T\n  - [n](s)", [])] != [Category("T", [Api("n", "s")])]
    ensures Report([Category("T\n  - [n](s)", [])]) == Report([Category("T", [Api("n", "s")])])
  {
    var c1 := Category("T\n  - [n](s)", []);
    var c2 := Category("T", [Api("n", "s")]);
    assert c1 != c2 by { assert c1.items != c2.items; }
    assert ItemLines(c1.items) == [];
    assert HeaderLine(c1.title) == "# T\n  - [n](s)";
    assert CategoryLines(c1) == ["# T\n  - [n](s)"];
    assert Unlines(["# T\n  - [n](s)"]) == "# T\n  - [n](s)\n" by {
      assert ["# T\n  - [n](s)"][1..] == [];
    }
    assert ItemLine(Api("n", "s")) == "  - [n](s)";
    assert ItemLines(c2.items) == ["  - [n](s)"];
    assert HeaderLine(c2.title) == "# T";
    assert CategoryLines(c2) == ["# T", "  - [n](s)"];
    assert Unlines(["  - [n](s)"]) == "  - [n](s)\n" by { assert ["  - [n](s)"][1..] == []; }
    assert Unlines(["# T", "  - [n](s)"]) == "# T\n" + Unlines(["  - [n](s)"]) by {
      assert ["# T", "  - [n](s)"][1..] == ["  - [n](s)"];
    }
    assert Report([c1]) == CategoryText(c1) + "\n" + Report([]);
    assert Report([c2]) == CategoryText(c2) + "\n" + Report([]);
  }
}
