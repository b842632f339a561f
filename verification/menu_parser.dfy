/** The menu export reader (MenuParser.py): `|`-separated menu lines become
    rows of path, symbol, label, target and the functionality the target
    calls, found directly in the target or, for a page target, in the page's
    XML definition. Reading files and parsing XML are left to the caller: what
    each XML directory gives for a (pageset, page) pair is a parameter. */
module MenuParser {
  import opened Wrappers
  import opened Text

  // ------------------------------------------------------------ XML search

  /** An XML element: tag, attributes and children in document order. */
  datatype Element = Element(tag: string, attrib: map<string, string>, children: seq<Element>)

  /** A `<functionality>` element carrying a `name`. */
  predicate Hit(e: Element) {
    e.tag == "functionality" && "name" in e.attrib
  }

  /** The element and all its descendants in document order (`node.iter()`). */
  function Preorder(e: Element): seq<Element>
    decreases e, 1
  {
    [e] + PreorderAll(e.children)
  }

  function PreorderAll(es: seq<Element>): seq<Element>
    decreases es, 0
  {
    if es == [] then [] else Preorder(es[0]) + PreorderAll(es[1..])
  }

  /** The `name` of the first hit of a sequence of elements. */
  function FirstName(s: seq<Element>): (r: Option<string>)
    ensures r.None? <==> forall i :: 0 <= i < |s| ==> !Hit(s[i])
    ensures r.Some? ==> exists i :: 0 <= i < |s| && Hit(s[i]) && r.value == s[i].attrib["name"]
                                    && forall j :: 0 <= j < i ==> !Hit(s[j])
  {
    if s == [] then None
    else if Hit(s[0]) then Some(s[0].attrib["name"])
    else
      var r := FirstName(s[1..]);
      assert forall i :: 0 < i < |s| ==> s[i] == s[1..][i - 1];
      if r.Some? then
        var i :| 0 <= i < |s[1..]| && Hit(s[1..][i]) && r.value == s[1..][i].attrib["name"]
                 && forall j :: 0 <= j < i ==> !Hit(s[1..][j]);
        assert Hit(s[i + 1]) && forall j :: 0 <= j < i + 1 ==> !Hit(s[j]);
        r
      else r
  }

  lemma {:induction false} FirstNameAppend(a: seq<Element>, b: seq<Element>)
    ensures FirstName(a + b) == if FirstName(a).Some? then FirstName(a) else FirstName(b)
  {
    if a != [] {
      assert (a + b)[1..] == a[1..] + b;
      FirstNameAppend(a[1..], b);
    } else {
      assert a + b == b;
    }
  }

  /** `search_functionality_recursively`: the element itself, then its
      children's subtrees left to right, stopping at the first hit. The
      answer is the name of the first `<functionality name=...>` of the
      subtree in document order, and nothing when there is none. */
  function SearchFunctionality(e: Element): (r: Option<string>)
    ensures r == FirstName(Preorder(e))
    decreases e, 1
  {
    FirstNameAppend([e], PreorderAll(e.children));
    if Hit(e) then Some(e.attrib["name"]) else SearchAll(e.children)
  }

  /** The search over a sequence of sibling subtrees, left to right. */
  function SearchAll(es: seq<Element>): (r: Option<string>)
    ensures r == FirstName(PreorderAll(es))
    decreases es, 0
  {
    if es == [] then None
    else
      FirstNameAppend(Preorder(es[0]), PreorderAll(es[1..]));
      match SearchFunctionality(es[0])
      case Some(name) => Some(name)
      case None => SearchAll(es[1..])
  }

  /** A page whose search gives no name, or an empty one (falsy in Python). */
  predicate Blank(page: Element) {
    SearchFunctionality(page) in {None, Some("")}
  }

  /** Every page before the `i`-th is blank. */
  predicate BlankBefore(pages: seq<Element>, i: int) {
    forall j :: 0 <= j < i && j < |pages| ==> Blank(pages[j])
  }

  /** The search over the `<page>` elements of one file, in document order:
      the name of the first page whose search finds a non-empty one. */
  function FirstInPages(pages: seq<Element>): (r: Option<string>)
    ensures r.Some? ==>
              r.value != "" &&
              (exists i :: 0 <= i < |pages| && SearchFunctionality(pages[i]) == r && BlankBefore(pages, i))
    ensures r.None? <==> BlankBefore(pages, |pages|)
  {
    if pages == [] then None
    else if !Blank(pages[0]) then
      assert BlankBefore(pages, 0);
      SearchFunctionality(pages[0])
    else
      var r := FirstInPages(pages[1..]);
      FirstInPagesStep(pages, r);
      r
  }

  /** Moving past a blank first page shifts every position by one. */
  lemma FirstInPagesStep(pages: seq<Element>, r: Option<string>)
    requires pages != [] && Blank(pages[0])
    requires r.Some? ==>
               r.value != "" &&
               (exists i :: 0 <= i < |pages[1..]| && SearchFunctionality(pages[1..][i]) == r && BlankBefore(pages[1..], i))
    requires r.None? <==> BlankBefore(pages[1..], |pages[1..]|)
    ensures r.Some? ==>
              r.value != "" &&
              (exists i :: 0 <= i < |pages| && SearchFunctionality(pages[i]) == r && BlankBefore(pages, i))
    ensures r.None? <==> BlankBefore(pages, |pages|)
  {
    var tail := pages[1..];
    forall i | 0 <= i <= |tail| ensures BlankBefore(tail, i) <==> BlankBefore(pages, i + 1) {
      assert forall j :: 0 < j < |pages| ==> pages[j] == tail[j - 1];
    }
    if r.Some? {
      var i :| 0 <= i < |tail| && SearchFunctionality(tail[i]) == r && BlankBefore(tail, i);
      assert pages[i + 1] == tail[i];
    }
  }

  /** What one XML directory gives for a (pageset, page) pair: the `<page>`
      elements named `page` in its `<pageset>.page` file (none when the file
      is missing or is not well-formed XML), or an error that escapes: the
      file cannot be read, or the page name makes the path query invalid. */
  datatype PageFile = Pages(elements: seq<Element>) | Raises

  /** A directory the search moves past: readable, and no non-empty name in it. */
  predicate Passes(f: PageFile) {
    f.Pages? && FirstInPages(f.elements).None?
  }

  /** How `find_functionality` ends. */
  datatype Lookup = Found(name: string) | NotFound | Raised

  /** The search moved past every directory before the `i`-th. */
  predicate PassedBefore(files: seq<PageFile>, i: int) {
    forall j :: 0 <= j < i && j < |files| ==> Passes(files[j])
  }

  /** `find_functionality` over the directories in order: the first non-empty
      name wins, and an escaping error ends the search unless a directory
      before it already gave a name. */
  function FindFunctionality(files: seq<PageFile>): (r: Lookup)
    ensures r.Found? ==>
              r.name != "" &&
              (exists i :: 0 <= i < |files| && files[i].Pages? && FirstInPages(files[i].elements) == Some(r.name) && PassedBefore(files, i))
    ensures r.Raised? <==> exists i :: 0 <= i < |files| && files[i].Raises? && PassedBefore(files, i)
    ensures r.NotFound? <==> PassedBefore(files, |files|)
  {
    if files == [] then NotFound
    else if files[0].Raises? then
      assert PassedBefore(files, 0);
      Raised
    else
      match FirstInPages(files[0].elements)
      case Some(name) =>
        assert PassedBefore(files, 0);
        Found(name)
      case None =>
        var r := FindFunctionality(files[1..]);
        FindFunctionalityStep(files, r);
        r
  }

  /** Moving past a first directory shifts every position by one. */
  lemma FindFunctionalityStep(files: seq<PageFile>, r: Lookup)
    requires files != [] && Passes(files[0])
    requires r.Found? ==>
               r.name != "" &&
               (exists i :: 0 <= i < |files[1..]| && files[1..][i].Pages? && FirstInPages(files[1..][i].elements) == Some(r.name) && PassedBefore(files[1..], i))
    requires r.Raised? <==> exists i :: 0 <= i < |files[1..]| && files[1..][i].Raises? && PassedBefore(files[1..], i)
    requires r.NotFound? <==> PassedBefore(files[1..], |files[1..]|)
    ensures r.Found? ==>
              r.name != "" &&
              (exists i :: 0 <= i < |files| && files[i].Pages? && FirstInPages(files[i].elements) == Some(r.name) && PassedBefore(files, i))
    ensures r.Raised? <==> exists i :: 0 <= i < |files| && files[i].Raises? && PassedBefore(files, i)
    ensures r.NotFound? <==> PassedBefore(files, |files|)
  {
    forall i | 0 <= i <= |files[1..]|
      ensures PassedBefore(files[1..], i) <==> PassedBefore(files, i + 1)
    {
      assert forall j :: 0 < j < |files| ==> files[j] == files[1..][j - 1];
    }
    if r.Found? {
      var i :| 0 <= i < |files[1..]| && files[1..][i].Pages? && FirstInPages(files[1..][i].elements) == Some(r.name) && PassedBefore(files[1..], i);
      assert files[i + 1] == files[1..][i];
    }
    if exists i :: 0 <= i < |files| && files[i].Raises? && PassedBefore(files, i) {
      var i :| 0 <= i < |files| && files[i].Raises? && PassedBefore(files, i);
      assert i > 0;
      assert files[1..][i - 1] == files[i];
    }
    if r.Raised? {
      var i :| 0 <= i < |files[1..]| && files[1..][i].Raises? && PassedBefore(files[1..], i);
      assert files[i + 1] == files[1..][i];
    }
  }

  // ------------------------------------------------------------ menu lines

  /** For a (pageset, page) pair, what each XML directory gives, in order. */
  type PageLookup = (string, string) -> seq<PageFile>

  /** The pageset and page a "page:" target names: the text after the last
      "page:" split at its first ".", or `None` when there is no "." and the
      unpacking raises. */
  function PageOf(target: string): (r: Option<(string, string)>)
    ensures r.None? <==> '.' !in AfterLast(target, "page:")
    ensures r.Some? ==> AfterLast(target, "page:") == r.value.0 + "." + r.value.1 && '.' !in r.value.0
  {
    SplitOnce(AfterLast(target, "page:"), '.')
  }

  /** The functionality a target calls, or `None` when working it out raises
      and the line is skipped. The first marker found decides:
      "functionality:" gives the trimmed text after its last occurrence;
      "page:" looks up the page it names ("" when nothing is found; a missing
      "." or an escaping lookup error raises); "action:" or "help:" give "";
      anything else is the trimmed target. */
  function TargetFunctionality(target: string, pages: PageLookup): (r: Option<string>)
    ensures Contains(target, "functionality:") ==> r == Some(Strip(AfterLast(target, "functionality:")))
    ensures !Contains(target, "functionality:") && Contains(target, "page:") ==>
              (r.None? <==> PageOf(target).None? || FindFunctionality(pages(PageOf(target).value.0, PageOf(target).value.1)).Raised?)
    ensures !Contains(target, "functionality:") && Contains(target, "page:") && r.Some? ==>
              var found := FindFunctionality(pages(PageOf(target).value.0, PageOf(target).value.1));
              r.value == if found.Found? then found.name else ""
    ensures !Contains(target, "functionality:") && !Contains(target, "page:") && (Contains(target, "action:") || Contains(target, "help:")) ==>
              r == Some("")
    ensures !Contains(target, "functionality:") && !Contains(target, "page:") && !Contains(target, "action:") && !Contains(target, "help:") ==>
              r == Some(Strip(target))
  {
    if Contains(target, "functionality:") then Some(Strip(AfterLast(target, "functionality:")))
    else if Contains(target, "page:") then
      match PageOf(target)
      case None => None
      case Some((pageset, page)) =>
        match FindFunctionality(pages(pageset, page))
        case Found(name) => Some(name)
        case NotFound => Some("")
        case Raised => None
    else if Contains(target, "action:") || Contains(target, "help:") then Some("")
    else Some(Strip(target))
  }

  /** A "functionality:" marker settles the target on its own: the XML is
      never consulted, even when the target also names a page. */
  lemma FunctionalityMarkerDecides(target: string, a: PageLookup, b: PageLookup)
    requires Contains(target, "functionality:")
    ensures TargetFunctionality(target, a) == TargetFunctionality(target, b)
    ensures TargetFunctionality(target, a).Some?
  {
  }

  /** Writing "functionality:" before a name gives the name back, trimmed. */
  lemma NamedTarget(name: string, pages: PageLookup)
    requires !Contains(name, "functionality:")
    ensures TargetFunctionality("functionality:" + name, pages) == Some(Strip(name))
  {
    AfterLastOfLeading("functionality:", name);
    assert OccursAt("functionality:" + name, "functionality:", 0);
  }

  /** A "page:" target built from a pageset and a page is looked up under
      exactly that pair, and the line is skipped exactly when the lookup
      raises. */
  lemma PageTargetLooksUp(pageset: string, page: string, pages: PageLookup)
    requires '.' !in pageset
    requires !Contains(pageset + "." + page, "page:")
    requires !Contains("page:" + pageset + "." + page, "functionality:")
    ensures var found := FindFunctionality(pages(pageset, page));
            var r := TargetFunctionality("page:" + pageset + "." + page, pages);
            && (r.None? <==> found.Raised?)
            && (found.Found? ==> r == Some(found.name))
            && (found.NotFound? ==> r == Some(""))
  {
    var target := "page:" + pageset + "." + page;
    assert target == "page:" + (pageset + "." + page);
    AfterLastOfLeading("page:", pageset + "." + page);
    assert OccursAt(target, "page:", 0);
    SplitOnceAt(pageset, page, '.');
    assert pageset + "." + page == pageset + ['.'] + page;
  }

  /** The fields of a data line, padded to four, or `None` for a blank line
      or one with fewer than three fields. */
  function LineFields(line: string): (r: Option<seq<string>>)
    ensures r.None? <==> Strip(line) == [] || |Split(Strip(line), '|')| < 3
    ensures r.Some? ==> r.value == PadTo(Split(Strip(line), '|'), 4)
  {
    if Strip(line) == [] then None
    else
      var parts := Split(Strip(line), '|');
      if |parts| < 3 then None else Some(PadTo(parts, 4))
  }

  /** One output row: the trimmed first four fields and the functionality. */
  datatype MenuRow = MenuRow(path: string, symbol: string, caption: string, target: string, functionality: string)

  /** The row a data line contributes, if any. */
  function LineRow(line: string, pages: PageLookup): (r: Option<MenuRow>)
    ensures r.Some? <==> LineFields(line).Some? && TargetFunctionality(LineFields(line).value[3], pages).Some?
    ensures r.Some? ==>
              var f := LineFields(line).value;
              r.value == MenuRow(Strip(f[0]), Strip(f[1]), Strip(f[2]), Strip(f[3]), TargetFunctionality(f[3], pages).value)
  {
    match LineFields(line)
    case None => None
    case Some(f) =>
      match TargetFunctionality(f[3], pages)
      case None => None
      case Some(functionality) => Some(MenuRow(Strip(f[0]), Strip(f[1]), Strip(f[2]), Strip(f[3]), functionality))
  }

  /** What each data line yields, line by line. */
  function LineRows(lines: seq<string>, pages: PageLookup): (r: seq<Option<MenuRow>>)
    ensures |r| == |lines|
    ensures forall i :: 0 <= i < |lines| ==> r[i] == LineRow(lines[i], pages)
  {
    Map(lines, (line: string) => LineRow(line, pages))
  }

  /** The rows of the data lines, in input order. */
  function CollectRows(lines: seq<string>, pages: PageLookup): (rows: seq<MenuRow>)
    ensures |rows| <= |lines|
  {
    Somes(LineRows(lines, pages))
  }

  /** Every row comes from a line, and every line that yields a row is represented. */
  lemma CollectRowsMembers(lines: seq<string>, pages: PageLookup)
    ensures forall row :: row in CollectRows(lines, pages) ==> exists i :: 0 <= i < |lines| && LineRow(lines[i], pages) == Some(row)
    ensures forall i :: 0 <= i < |lines| && LineRow(lines[i], pages).Some? ==> LineRow(lines[i], pages).value in CollectRows(lines, pages)
  {
    var opts := LineRows(lines, pages);
    SomesMembers(opts);
    forall row | row in CollectRows(lines, pages)
      ensures exists i :: 0 <= i < |lines| && LineRow(lines[i], pages) == Some(row)
    {
      var i :| 0 <= i < |opts| && opts[i] == Some(row);
    }
    forall i | 0 <= i < |lines| && LineRow(lines[i], pages).Some?
      ensures LineRow(lines[i], pages).value in CollectRows(lines, pages)
    {
      assert opts[i] in opts;
    }
  }

  /** Each line is handled on its own: the rows of two blocks of lines are
      the rows of the first followed by those of the second. */
  lemma CollectRowsAppend(a: seq<string>, b: seq<string>, pages: PageLookup)
    ensures CollectRows(a + b, pages) == CollectRows(a, pages) + CollectRows(b, pages)
  {
    MapAppend(a, b, (line: string) => LineRow(line, pages));
    SomesAppend(LineRows(a, pages), LineRows(b, pages));
  }

  /** A line that yields no row (blank, under three fields, or a page
      target without a ".") can be removed without changing the output. */
  lemma {:induction false} SkippedLineAddsNothing(a: seq<string>, line: string, b: seq<string>, pages: PageLookup)
    requires LineRow(line, pages).None?
    ensures CollectRows(a + [line] + b, pages) == CollectRows(a + b, pages)
  {
    var one := CollectRows([line], pages);
    assert one == [] by {
      var opts: seq<Option<MenuRow>> := [None];
      assert LineRows([line], pages) == opts;
      assert opts[1..] == [];
    }
    CollectRowsAppend(a + [line], b, pages);
    CollectRowsAppend(a, [line], pages);
    CollectRowsAppend(a, b, pages);
    assert CollectRows(a + [line], pages) == CollectRows(a, pages);
  }

  /** The header line's fields, padded to four, the fifth renamed
      "Functionality" when there are exactly five. */
  function Header(line: string): (h: seq<string>)
    ensures |h| == if |Split(Strip(line), '|')| < 4 then 4 else |Split(Strip(line), '|')|
    ensures |h| == 5 ==> h[4] == "Functionality" && h[..4] == Split(Strip(line), '|')[..4]
    ensures |h| != 5 ==> h == PadTo(Split(Strip(line), '|'), 4)
  {
    var h := PadTo(Split(Strip(line), '|'), 4);
    if |h| == 5 then h[4 := "Functionality"] else h
  }

  /** What makes `process_input_file` raise. */
  datatype ParseError =
    | EmptyInput      // no header line (`lines[0]`)
    | HeaderTooShort  // a row is built while the header has fewer than five fields
    | NoValidRows     // no line gave a row

  /** The output table: the first five header fields name the columns. */
  datatype Table = Table(columns: seq<string>, rows: seq<MenuRow>)

  /** `process_input_file` on the lines of the file. */
  function ProcessInput(lines: seq<string>, pages: PageLookup): (r: Result<Table, ParseError>)
    ensures lines == [] <==> r == Failure(EmptyInput)
    ensures lines != [] && CollectRows(lines[1..], pages) == [] ==> r == Failure(NoValidRows)
    ensures lines != [] && CollectRows(lines[1..], pages) != [] && |Header(lines[0])| < 5 ==> r == Failure(HeaderTooShort)
    ensures r.Success? ==>
              && |lines| > 1
              && |r.value.columns| == 5 && r.value.columns == Header(lines[0])[..5]
              && r.value.rows == CollectRows(lines[1..], pages) && r.value.rows != []
  {
    if lines == [] then Failure(EmptyInput)
    else
      var header := Header(lines[0]);
      var rows := CollectRows(lines[1..], pages);
      if rows == [] then Failure(NoValidRows)
      else if |header| < 5 then Failure(HeaderTooShort)
      else Success(Table(header[..5], rows))
  }

  /** Every field of every output row is trimmed: none starts or ends with whitespace. */
  lemma RowsAreTrimmed(lines: seq<string>, pages: PageLookup)
    ensures forall row :: row in CollectRows(lines, pages) ==> TrimmedRow(row)
  {
    CollectRowsMembers(lines, pages);
    forall row | row in CollectRows(lines, pages) ensures TrimmedRow(row) {
      var i :| 0 <= i < |lines| && LineRow(lines[i], pages) == Some(row);
      LineRowIsTrimmed(lines[i], pages);
    }
  }

  lemma LineRowIsTrimmed(line: string, pages: PageLookup)
    ensures LineRow(line, pages).Some? ==> TrimmedRow(LineRow(line, pages).value)
  {
    if LineRow(line, pages).Some? {
      var f := LineFields(line).value;
      StripIsTrimmed(f[0]);
      StripIsTrimmed(f[1]);
      StripIsTrimmed(f[2]);
      StripIsTrimmed(f[3]);
    }
  }

  predicate TrimmedRow(row: MenuRow) {
    Trimmed(row.path) && Trimmed(row.symbol) && Trimmed(row.caption) && Trimmed(row.target)
  }

  predicate Trimmed(s: string) {
    s != [] ==> !IsSpace(s[0]) && !IsSpace(s[|s| - 1])
  }

  lemma StripIsTrimmed(s: string)
    ensures Trimmed(Strip(s))
  {
  }

  /** A header line of exactly five fields keeps its first four names and
      calls the fifth column "Functionality", whatever it said. */
  lemma FiveFieldHeader(line: string, names: seq<string>)
    requires |names| == 5 && forall i :: 0 <= i < 5 ==> '|' !in names[i]
    requires Strip(line) == Join(names, '|')
    ensures Header(line) == names[..4] + ["Functionality"]
  {
    SplitJoin(names, '|');
  }
}
