# web_api_scraper — a verified model of the catalogue extraction and printing

`web_api_scraper` loads the page at `https://platform.html5.org/` and finds the
`section#contentCols` element. Every `dl` in that section becomes a category:
the joined text of its first `dt` is the title, and every `dd` becomes an API.
An API's name is the joined text of the entry's first `a`, and its spec link is
that `a`'s `href`, copied verbatim. Categories titled exactly `"Various other"`
are dropped. The first malformed `dl` aborts the whole run. Otherwise every
category is printed as `# title` followed by one `  - [name](spec)` line per
API.

This project models that logic in Dafny, from `src/main.rs`:

- `results.dfy` (module `Results`): the error kinds with their messages, a
  `Result` type used with `:-` the way the source uses `?`, and `Collect`,
  which models `collect::<Result<Vec<_>, _>>()`.
- `text.dfy` (module `Text`): `join_text` in two forms. `JoinedText` is a
  function that serves as its specification. `JoinText` is a method with the
  source's accumulator loop. The module also has the line splitting used to
  state the output format.
- `catalogue.dfy` (module `Catalogue`): the element abstraction, `Api`,
  `Category`, and the rules `Api::from_html`, `Category::title`,
  `Category::items` and `Category::from_html`.
- `display.dfy` (module `Display`): `Display for Api` and `Display for
  Category`, including the loop in `Category::fmt`. It also has the printing
  loop of `main` and a reader for the printed text. The reader is used to
  prove that the format is lossless for printable catalogues (no newline in
  any field, no `]` in any name), and two counterexamples prove that it is
  ambiguous without those conditions.
- `scraper.dfy` (module `Scraper`): the map / filter / collect pipeline of
  `main` and the run that prints its result.

An HTML element is a datatype `Element`. It holds the text fragments the
element yields, its optional `href`, and its `dt`, `dd` and `a` descendants in
document order. The descendant sequences are given, not computed from a
document tree.

Two points where the program's behaviour differs from what a reader might expect; the model follows the code:

- `main` prints each category with `println!("{}", category)`, and the
  category's own text already ends in a newline. Every printed block is
  therefore followed by an empty line. It is not a blank-line-free listing.
- A page without the content section is not a reported error. The
  `.unwrap()` at `src/main.rs:16` panics. The model starts from the `dl`
  elements of a section that was found.

## Model

| member | source | states |
|---|---|---|
| `Text.JoinedText` | src/main.rs:110-120 | No text fragments give the empty string. For n ≥ 1 fragments, the length is the sum of the fragment lengths plus n − 1 (one separator between each pair). |
| `Text.JoinedTextFragment` | src/main.rs:116-119 | Fragment k appears verbatim at its offset (the earlier fragments plus one space each). Every fragment after the first is preceded by a single space. Together with the length, this fixes the joined text completely. |
| `Text.JoinedTextCons` | src/main.rs:111-119 | Read from the front, the fold is `t1 + " " + join(t2..tn)`, so the whole text is `t1 + " " + t2 + ... + " " + tn`. |
| `Text.JoinedTextExamples` | src/main.rs:110-120 | Fragments "Foo" and "Bar" join to "Foo Bar". A single fragment "Foo" comes back unchanged, with no extra spacing. |
| `Text.JoinText` | src/main.rs:110-120 | The accumulator loop (start from the first fragment, append `" " + fragment` for each later one; empty text when there is none) computes exactly `JoinedText`. |
| `Results.Message` | src/main.rs:61-98 | Each error kind carries the source's message: "cannot find title element in category", "no `a` element in an api element", "no `href` on api element title `a`". Each message belongs to exactly one kind. |
| `Results.Collect` | src/main.rs:70 | Collecting results succeeds iff every result succeeds, and then holds every value in order. Otherwise it is the error of the first failure. |
| `Catalogue.ApiFromHtml` | src/main.rs:85-101 | No `a` descendant gives `MissingLink`. A first `a` without `href` gives `MissingHref`. Otherwise the name is the joined text of the first `a` and the spec is its `href`, verbatim. These are the only success conditions. |
| `Catalogue.ApiFromHtmlFirstLinkOnly` | src/main.rs:89-92 | Any two entries with the same first `a` give the same result, and any two entries without an `a` fail alike. Later `a` elements and the entry's own text are ignored. |
| `Catalogue.ApiResults` | src/main.rs:70 | The `map` over the `dd` elements gives one `Api::from_html` result per `dd`, in document order. |
| `Catalogue.Title` | src/main.rs:56-64 | The title exists iff there is a `dt`. It is the joined text of the first `dt`; otherwise the error is `MissingTitle`. |
| `Catalogue.Items` | src/main.rs:66-71 | Items succeed iff every `dd` yields an API, giving one API per `dd` in document order. Otherwise the error is that of the first failing `dd`, and every `dd` before it succeeded. |
| `Catalogue.CategoryFromHtml` | src/main.rs:49-54 | A missing `dt` gives `MissingTitle` even when a `dd` is malformed too, so the title error comes first. With a `dt`, the category succeeds iff its items do, and carries the items' error otherwise. The title is the first `dt`'s joined text and the items are the parsed `dd`s. |
| `Display.ApiText` | src/main.rs:104-107 | An API's text is four characters longer than its name and link together. It opens with `[` and closes with `)`; `ParseApiText` proves the exact layout. |
| `Display.CategoryText` | src/main.rs:74-81 | A category's text is its header line `"# " + title`, a newline, then its item lines, each newline terminated. |
| `Display.FormatCategory` | src/main.rs:74-81 | The formatting loop writes the header line, then one item line per API in order. The result equals `CategoryText`. |
| `Display.CategoryTextLines` | src/main.rs:76-78 | If no field holds a newline, a category's text is exactly 1 + \|items\| newline-terminated lines. The first is `"# " + title` and line i + 1 is `"  - " + display(items[i])`. |
| `Display.ParseApiText` | src/main.rs:104-107 | An API displays as `"[" + name + "](" + spec + ")"`. Reading that text back gives the same name and spec when the name holds no `]`. |
| `Display.Report` | src/main.rs:26-28 | The printed text is the newline-terminated lines of every category in order, with one empty line after each category. |
| `Display.PrintCategories` | src/main.rs:26-28 | The printing loop outputs each category's text followed by one more newline, in order (`Report`). |
| `Display.ReportRoundTrip` | src/main.rs:26-28 | The printed report is lossless for printable catalogues: if no field holds a newline and no name holds a `]`, reading it back recovers every title, name and spec in order. |
| `Display.ApiTextAmbiguous` | src/main.rs:104-107 | Without the printable condition the format is ambiguous. `Api("a](x", "y")` and `Api("a", "x](y")` are different APIs that print the same text. |
| `Display.ReportAmbiguous` | src/main.rs:74-81 | A newline in a title, which `join_text` keeps from the page's text nodes, makes a title-only category print the same report as a different category with one API. |
| `Scraper.Keep` | src/main.rs:21-24 | The filter closure keeps every failure. It keeps a parsed category iff its title is not exactly "Various other". |
| `Scraper.FilterHousekeeping` | src/main.rs:21-24 | Never yields more entries than it gets, and every kept entry passes the filter closure. |
| `Scraper.FilterHousekeepingMembers` | src/main.rs:21-24 | An entry is kept iff it is a failure or a category whose title is not exactly "Various other". No failure is ever removed. |
| `Scraper.FilterAppend` | src/main.rs:21-24 | Filtering distributes over concatenation, so kept entries keep their relative order. |
| `Scraper.WithoutHousekeeping` | src/main.rs:21-24 | The same filter on parsed categories never yields more than it gets, and no kept category is titled "Various other". |
| `Scraper.WithoutHousekeepingMembers` | src/main.rs:21-24 | Among parsed categories, exactly those titled "Various other" are removed. |
| `Scraper.WithoutHousekeepingCount` | src/main.rs:18-25 | N categories, k of them titled "Various other", leave N − k. |
| `Scraper.CollectFilter` | src/main.rs:18-25 | Filtering and then collecting equals collecting and then dropping the "Various other" categories. The first failure in document order still decides the error. |
| `Scraper.CategoryResults` | src/main.rs:19-20 | The `map` over the `dl` elements gives one `Category::from_html` result per `dl`, in document order. |
| `Scraper.Extract` | src/main.rs:18-25 | The pipeline succeeds iff every `dl` parses. On failure it returns the error of the first failing `dl`, and all earlier ones succeeded. On success it returns the parsed categories minus the "Various other" ones, in document order. |
| `Scraper.ExtractCount` | src/main.rs:18-25 | When every `dl` parses, N lists of which k are titled "Various other" give N − k categories. |
| `Scraper.Run` | src/main.rs:18-29 | If any `dl` fails, the run returns the first failure's error and prints nothing. Otherwise it prints the report of the filtered categories, in document order. |
| `Scraper.StorageExample` | src/main.rs:18-28 | The list `<dl><dt>Storage</dt><dd><a href="/storage">LocalStorage</a></dd></dl>` gives one category, printed as `# Storage`, then `  - [LocalStorage](/storage)`, then the empty line. |

## Left out

- `load_html` and `fetch_html` (src/main.rs:122-138) read and write the cache file and fetch the page over the network. They are I/O and are not part of this model.
- HTML parsing and selector matching (`Html::parse_document`, `Selector`, `select`) belong to the `scraper` crate. An element's text fragments, `href`, and `dt`/`dd`/`a` descendants are inputs of the model.
- Finding the content section and its `.unwrap()` (src/main.rs:15-16) are not modelled. `Scraper.Run` takes the `dl` elements of a section that exists. A missing section is a panic in the source, not an error value.
- The `lazy_static` selector caches only initialise constants and have no behaviour to model.
- Standard output: what `println!` writes is modelled as the returned text. A failing write (a panic in `println!`, or a `fmt::Error` from `write!`) is not modelled.
- `anyhow::Error` is modelled as three error kinds, each with its message. Backtraces and error chaining are not modelled.
- Rust's iterators are lazy: the collect stops pulling entries after the first failure. The extraction rules are pure, so the result is the same. The order in which entries are evaluated is not modelled.
