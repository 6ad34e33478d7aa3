/** The original single-file script `lexitron.py`: one dictionary searched
    with an anchored (or, with `-g`, unanchored) expression, the matches split
    into proper nouns and common words, a boxed header, and an older column
    layout for the terminal.

    The regular-expression engine is a predicate handed in by the caller
    (pattern, case sensitivity, word); `str.isupper` on a character is
    another; the dictionary is the list of its lines; the terminal width,
    a global of the script, is a parameter. */
module Legacy {
  import opened Strings
  import opened Lists
  import Lexitron

  datatype Option<T> = None | Some(value: T)

  // ---------------------------------------------------------------------
  // search

  /** The regular expression `search` compiles: the sanitized expression,
      anchored at both ends unless the search is global. */
  function Pattern(exp: string, globalSearch: bool): (r: Lexitron.Result<string>)
    ensures r.Err? <==> Lexitron.Sanitize(exp).Err?
    ensures r.Ok? && globalSearch ==> r.value == Lexitron.Sanitize(exp).value
    ensures r.Ok? && !globalSearch ==>
      && |r.value| >= 2 && r.value[0] == '^' && r.value[|r.value| - 1] == '$'
      && r.value[1..|r.value| - 1] == Lexitron.Sanitize(exp).value
  {
    var e := Lexitron.Sanitize(exp);
    if e.Err? then e
    else if globalSearch then e
    else Lexitron.Ok("^" + e.value + "$")
  }

  /** A possessive form: the last two characters are `'s`. */
  predicate IsPossessive(w: string) {
    |w| >= 2 && w[|w| - 2..] == "'s"
  }

  /** `w and w[-2:] != "'s"`: the dictionary lines `search` keeps. */
  predicate Kept(w: string) {
    w != "" && !IsPossessive(w)
  }

  /** `search`: the lines of the dictionary, without empty lines and
      possessives, that the compiled pattern finds a match in, in dictionary
      order. Sanitizing an empty expression raises an index error, and a
      pattern that `re.compile` rejects (such as `^($`) raises `re.error`. */
  function Search(exp: string, globalSearch: bool, caseSense: bool, dictionary: seq<string>,
                  compiles: (string, bool) -> bool,
                  regexSearch: (string, bool, string) -> bool): (r: Lexitron.Result<seq<string>>)
    ensures r.Err? <==> Lexitron.Sanitize(exp).Err? || !compiles(Pattern(exp, globalSearch).value, caseSense)
    ensures Lexitron.Sanitize(exp).Err? ==> r == Lexitron.Err(Lexitron.IndexError)
    ensures Lexitron.Sanitize(exp).Ok? && !compiles(Pattern(exp, globalSearch).value, caseSense) ==>
      r == Lexitron.Err(Lexitron.PatternError)
    ensures r.Ok? ==> forall w :: w in r.value ==> w != "" && !IsPossessive(w)
    ensures r.Ok? ==> forall w :: w in r.value <==>
      w in dictionary && Kept(w) && regexSearch(Pattern(exp, globalSearch).value, caseSense, w)
    ensures r.Ok? ==> |r.value| <= |dictionary|
  {
    var pattern := Pattern(exp, globalSearch);
    if pattern.Err? then Lexitron.Err(pattern.error)
    else
      var words := Filter(dictionary, Kept);
      if !compiles(pattern.value, caseSense) then Lexitron.Err(Lexitron.PatternError)
      else Lexitron.Ok(Filter(words, w => regexSearch(pattern.value, caseSense, w)))
  }

  /** The results of a search are fit for `counts`. */
  lemma SearchFeedsCounts(exp: string, globalSearch: bool, caseSense: bool, dictionary: seq<string>,
                          compiles: (string, bool) -> bool,
                          regexSearch: (string, bool, string) -> bool)
    requires Search(exp, globalSearch, caseSense, dictionary, compiles, regexSearch).Ok?
    ensures var rs := Search(exp, globalSearch, caseSense, dictionary, compiles, regexSearch).value;
      forall i :: 0 <= i < |rs| ==> rs[i] != ""
  {
    var rs := Search(exp, globalSearch, caseSense, dictionary, compiles, regexSearch).value;
    forall i | 0 <= i < |rs| ensures rs[i] != "" {
      assert rs[i] in rs;
    }
  }

  // ---------------------------------------------------------------------
  // counts and k

  /** Words whose first character is upper case. */
  function UpperInitial(isUpper: char -> bool): string -> bool {
    w => |w| > 0 && isUpper(w[0])
  }

  /** `counts`: the proper nouns (first character upper case) and the rest,
      each in the order of the results; `w[0]` needs non-empty words, which
      `search` guarantees. */
  function Counts(results: seq<string>, isUpper: char -> bool): (r: (seq<string>, seq<string>))
    requires forall i :: 0 <= i < |results| ==> results[i] != ""
    ensures r.0 == Filter(results, UpperInitial(isUpper))
    ensures forall w :: w in r.0 <==> w in results && isUpper(w[0])
    ensures r.1 == Filter(results, Not(UpperInitial(isUpper)))
    ensures multiset(r.0) + multiset(r.1) == multiset(results)
  {
    var props := Filter(results, UpperInitial(isUpper));
    var imps := Filter(results, w => w !in props);
    FilterCongruent(results, w => w !in props, Not(UpperInitial(isUpper)));
    FilterPartition(results, UpperInitial(isUpper));
    (props, imps)
  }

  /** `k`: the length of a list in decimal. */
  function K<T>(l: seq<T>): (r: string)
    ensures |r| >= 1 && forall i :: 0 <= i < |r| ==> IsDigit(r[i])
    ensures DecimalValue(r) == |l|
  {
    NatToString(|l|)
  }

  // ---------------------------------------------------------------------
  // header

  /** One `(option, value)` pair of the list `getopt` returns. */
  datatype Opt = Opt(name: string, arg: string)

  /** The Python values `header` compares: strings and 2-tuples of strings.
      Python's `==` between a string and a tuple is false. */
  datatype PyValue = PyStr(s: string) | PyPair(first: string, second: string)

  /** The option list as `header` receives it: a list of tuples. */
  function AsPython(opts: seq<Opt>): (r: seq<PyValue>)
    ensures |r| == |opts|
    ensures forall i :: 0 <= i < |opts| ==> r[i] == PyPair(opts[i].name, opts[i].arg)
  {
    seq(|opts|, i requires 0 <= i < |opts| => PyPair(opts[i].name, opts[i].arg))
  }

  /** `'-g' in opts` as written: a string looked for among tuples. */
  predicate GivenAsWritten(opts: seq<Opt>, name: string) {
    PyStr(name) in AsPython(opts)
  }

  /** Whether the option `name` was given, as `header` evidently means to ask. */
  predicate Given(opts: seq<Opt>, name: string) {
    exists o :: o in opts && o.name == name
  }

  /** The test as written never sees an option, whatever was given. */
  lemma AsWrittenNeverGiven(opts: seq<Opt>, name: string)
    ensures !GivenAsWritten(opts, name)
  {
  }

  const Indent: string := "  "

  /** The search options line: the modes in force, or nothing. */
  function Extras(globalGiven: bool, caseGiven: bool): (r: string)
    ensures r == "" <==> !globalGiven && !caseGiven
    ensures globalGiven ==> |r| >= 6 && r[..6] == "global"
    ensures caseGiven && !globalGiven ==> |r| >= 14 && r[..14] == "case-sensitive"
    ensures r != "" ==> |r| >= 7 && r[|r| - 7..] == " search"
  {
    if !(globalGiven || caseGiven) then ""
    else
      var theopts := (if globalGiven then ["global"] else []) + (if caseGiven then ["case-sensitive"] else []);
      assert globalGiven && caseGiven ==> theopts[1..] == ["case-sensitive"];
      var r := Join(", ", theopts) + " search";
      assert globalGiven ==> r[..6] == theopts[0][..6];
      r
  }

  /** The categories line: which categories were searched, or their counts. */
  function Categories(commonOnly: bool, properOnly: bool, props: seq<string>, imps: seq<string>): string {
    if commonOnly && properOnly then "searching the empty set"
    else if commonOnly then "excluding proper nouns"
    else if properOnly then "proper nouns only"
    else K(props) + " proper ~ " + K(imps) + " common"
  }

  /** The header text for a given categories line and options line: a rule,
      the result count, the categories, the options when there are any, and
      the rule again, each ended by a newline. */
  function HeaderText(exp: string, props: seq<string>, imps: seq<string>,
                      catstxt: string, extras: string): string {
    var rule := Repeat('=', 50) + "\n";
    var count := Indent + K(props + imps) + " results for /" + exp + "/" + "\n";
    var categories := Indent + Indent + Indent + catstxt + "\n";
    var options := if extras != "" then Indent + Indent + Indent + extras + "\n" else "";
    rule + count + categories + options + rule
  }

  /** `header` as written: the options are looked up with `'-g' in opts`. */
  function HeaderAsWritten(exp: string, props: seq<string>, imps: seq<string>, opts: seq<Opt>): string {
    HeaderText(exp, props, imps,
               Categories(GivenAsWritten(opts, "-n"), GivenAsWritten(opts, "-p"), props, imps),
               Extras(GivenAsWritten(opts, "-g"), GivenAsWritten(opts, "-c")))
  }

  /** `header` as its author meant it: options looked up by name. */
  function HeaderIntended(exp: string, props: seq<string>, imps: seq<string>, opts: seq<Opt>): string {
    HeaderText(exp, props, imps,
               Categories(Given(opts, "-n"), Given(opts, "-p"), props, imps),
               Extras(Given(opts, "-g"), Given(opts, "-c")))
  }

  /** As written, the header is the same whatever options were given: it
      never reports a global or case-sensitive search, and always prints
      the two counts. */
  lemma HeaderAsWrittenIgnoresOptions(exp: string, props: seq<string>, imps: seq<string>, opts: seq<Opt>)
    ensures HeaderAsWritten(exp, props, imps, opts) == HeaderAsWritten(exp, props, imps, [])
    ensures HeaderAsWritten(exp, props, imps, opts)
         == HeaderText(exp, props, imps, K(props) + " proper ~ " + K(imps) + " common", "")
  {
    AsWrittenNeverGiven(opts, "-n");
    AsWrittenNeverGiven(opts, "-p");
    AsWrittenNeverGiven(opts, "-g");
    AsWrittenNeverGiven(opts, "-c");
    AsWrittenNeverGiven([], "-n");
    AsWrittenNeverGiven([], "-p");
    AsWrittenNeverGiven([], "-g");
    AsWrittenNeverGiven([], "-c");
  }

  /** `lexitron.py -g cat`: the header as written is the plain header with
      the two counts, and the intended header is that same header with the
      line "global search" inserted before the closing rule. */
  lemma GlobalSearchNotReported(props: seq<string>, imps: seq<string>)
    ensures var opts := [Opt("-g", "")];
      var cats := K(props) + " proper ~ " + K(imps) + " common";
      && HeaderAsWritten("cat", props, imps, opts) == HeaderText("cat", props, imps, cats, "")
      && HeaderIntended("cat", props, imps, opts) == HeaderText("cat", props, imps, cats, "global search")
    ensures var opts := [Opt("-g", "")];
      var written := HeaderAsWritten("cat", props, imps, opts);
      var k := |written| - 51;
      && 0 <= k
      && HeaderIntended("cat", props, imps, opts)
         == written[..k] + (Indent + Indent + Indent + "global search\n") + written[k..]
  {
    var opts := [Opt("-g", "")];
    var cats := K(props) + " proper ~ " + K(imps) + " common";
    HeaderAsWrittenIgnoresOptions("cat", props, imps, opts);
    GlobalIntendedHeader(props, imps);
    HeaderTextOptionsLine("cat", props, imps, cats, "global search");
    assert Indent + Indent + Indent + "global search" + "\n" == Indent + Indent + Indent + "global search\n";
  }

  /** The intended header of `lexitron.py -g cat`, as a header text. */
  lemma GlobalIntendedHeader(props: seq<string>, imps: seq<string>)
    ensures HeaderIntended("cat", props, imps, [Opt("-g", "")])
         == HeaderText("cat", props, imps, K(props) + " proper ~ " + K(imps) + " common", "global search")
  {
    var opts := [Opt("-g", "")];
    OnlyGlobalGiven();
    assert Categories(Given(opts, "-n"), Given(opts, "-p"), props, imps)
        == K(props) + " proper ~ " + K(imps) + " common";
    assert Extras(Given(opts, "-g"), Given(opts, "-c")) == "global search" by {
      assert Join(", ", ["global"]) == "global";
    }
  }

  lemma OnlyGlobalGiven()
    ensures var opts := [Opt("-g", "")];
      Given(opts, "-g") && !Given(opts, "-n") && !Given(opts, "-p") && !Given(opts, "-c")
  {
    var opts := [Opt("-g", "")];
    assert opts[0] in opts;
  }

  /** The options line is the only part of the header that depends on the
      options text: it is inserted just before the closing rule of the
      header without options, whose last 51 characters are that rule. */
  lemma HeaderTextOptionsLine(exp: string, props: seq<string>, imps: seq<string>, catstxt: string, extras: string)
    requires extras != ""
    ensures var without := HeaderText(exp, props, imps, catstxt, "");
      var k := |without| - 51;
      && 0 <= k
      && without[k..] == Repeat('=', 50) + "\n"
      && HeaderText(exp, props, imps, catstxt, extras)
         == without[..k] + (Indent + Indent + Indent + extras + "\n") + without[k..]
  {
    var rule := Repeat('=', 50) + "\n";
    var count := Indent + K(props + imps) + " results for /" + exp + "/" + "\n";
    var categories := Indent + Indent + Indent + catstxt + "\n";
    var front := rule + count + categories;
    var without := HeaderText(exp, props, imps, catstxt, "");
    assert without == front + rule;
    assert without[..|front|] == front;
    assert without[|front|..] == rule;
  }

  /** The intended header reports what was asked for: the options line is
      present exactly when `-g` or `-c` was given, and names the global mode
      first; the categories line follows `-n` and `-p`. */
  lemma HeaderIntendedReportsOptions(exp: string, props: seq<string>, imps: seq<string>, opts: seq<Opt>)
    ensures var extras := Extras(Given(opts, "-g"), Given(opts, "-c"));
      && (extras != "" <==> Given(opts, "-g") || Given(opts, "-c"))
      && (Given(opts, "-g") ==> |extras| >= 6 && extras[..6] == "global")
    ensures var cats := Categories(Given(opts, "-n"), Given(opts, "-p"), props, imps);
      && (Given(opts, "-n") && !Given(opts, "-p") ==> cats == "excluding proper nouns")
      && (Given(opts, "-p") && !Given(opts, "-n") ==> cats == "proper nouns only")
      && (!Given(opts, "-n") && !Given(opts, "-p") ==> cats == K(props) + " proper ~ " + K(imps) + " common")
      && (Given(opts, "-n") && Given(opts, "-p") ==> cats == "searching the empty set")
  {
  }

  /** `header`, building the text line by line, with the options looked up
      by name. */
  method Header(exp: string, props: seq<string>, imps: seq<string>, opts: seq<Opt>) returns (h: string)
    ensures h == HeaderIntended(exp, props, imps, opts)
  {
    var extras := "";
    if Given(opts, "-g") || Given(opts, "-c") {
      var theopts: seq<string> := [];
      if Given(opts, "-g") { theopts := theopts + ["global"]; }
      if Given(opts, "-c") { theopts := theopts + ["case-sensitive"]; }
      extras := Join(", ", theopts) + " search";
    }
    var catstxt := "";
    if Given(opts, "-n") && Given(opts, "-p") {
      catstxt := "searching the empty set";
    } else if Given(opts, "-n") {
      catstxt := "excluding proper nouns";
    } else if Given(opts, "-p") {
      catstxt := "proper nouns only";
    } else {
      catstxt := K(props) + " proper ~ " + K(imps) + " common";
    }
    assert extras == Extras(Given(opts, "-g"), Given(opts, "-c"));
    assert catstxt == Categories(Given(opts, "-n"), Given(opts, "-p"), props, imps);
    h := Repeat('=', 50) + "\n";
    h := h + (Indent + K(props + imps) + " results for /" + exp + "/" + "\n");
    h := h + (Indent + Indent + Indent + catstxt + "\n");
    if extras != "" {
      h := h + (Indent + Indent + Indent + extras + "\n");
    }
    h := h + (Repeat('=', 50) + "\n");
  }

  // ---------------------------------------------------------------------
  // wordcols

  /** The default `mincolheight` of `wordcols`, the only value it is called with. */
  const MinColHeight: nat := 9

  function Abs(x: int): nat { if x < 0 then -x else x }

  /** `round(a / b)`: the integer nearest to `a / b`, ties to the even one. */
  function RoundHalfEven(a: nat, b: nat): (r: nat)
    requires b > 0
    ensures 2 * Abs(a - r * b) <= b
    ensures 2 * Abs(a - r * b) == b ==> r % 2 == 0
  {
    var q := a / b;
    var m := a % b;
    assert a - q * b == m;
    assert a - (q + 1) * b == m - b by { assert (q + 1) * b == q * b + b; }
    if 2 * m < b then q
    else if 2 * m > b then q + 1
    else if q % 2 == 0 then q
    else q + 1
  }

  /** `cols` of `wordcols`: about one column per `mincolheight` words, but no
      more than fit the terminal at `tab + 7` characters a column, and at
      least one. */
  function GridColumns(wcount: nat, tab: nat, terminalWidth: int): (cols: nat)
    ensures 1 <= cols <= Lexitron.Max(1, terminalWidth / (tab + 7))
    ensures cols <= Lexitron.Max(1, RoundHalfEven(wcount, MinColHeight))
    ensures cols == Lexitron.Max(1, terminalWidth / (tab + 7)) || cols == Lexitron.Max(1, RoundHalfEven(wcount, MinColHeight))
  {
    Lexitron.Max(Lexitron.Min(terminalWidth / (tab + 7), RoundHalfEven(wcount, MinColHeight)), 1)
  }

  /** The number of blanks `wordcols` appends, `(cols - (wcount - cols*height)) % cols`
      (Python's `%`, which for a positive divisor agrees with Dafny's). */
  function PaddingCount(wcount: nat, cols: nat, height: nat): int
    requires cols >= 1
  {
    (cols - (wcount - cols * height)) % cols
  }

  /** With `height = ceil(wcount / cols)`, the padding fills the rectangle
      exactly: `cols * height - wcount` blanks. */
  lemma PaddingFillsGrid(wcount: nat, cols: nat)
    requires cols >= 1
    ensures var height := Lexitron.CeilDiv(wcount, cols);
      PaddingCount(wcount, cols, height) == cols * height - wcount
  {
    var height := Lexitron.CeilDiv(wcount, cols);
    var d := cols * height - wcount;
    assert 0 <= d < cols;
    assert cols - (wcount - cols * height) == cols + d;
    ModShift(cols, d);
  }

  lemma ModShift(c: nat, d: int)
    requires c >= 1 && 0 <= d < c
    ensures (c + d) % c == d
  {
    assert (c + d) == 1 * c + d;
  }

  /** One cell of a line of `wordcols`: the word, justified to `tab + 5`
      unless it is in the last column, behind its " + " marker; nothing when
      the word is blank (`len(word.strip()) > 0` fails exactly when every
      character is whitespace, by the contract of `Strip`). */
  function Cell(word: string, last: bool, tab: nat): string {
    var w := if !last then LJust(word, tab + 5) else word;
    if !AllSpace(w) then " + " + w else ""
  }

  /** The first `c` cells of a row, as one line. */
  function LinePrefix(row: seq<string>, tab: nat, c: nat): string
    requires c <= |row|
    decreases c
  {
    if c == 0 then ""
    else LinePrefix(row, tab, c - 1) + Cell(row[c - 1], c - 1 == |row| - 1, tab)
  }

  /** Line `i` of a grid of `height` rows stored column after column: the
      cells of `p[i::height]`. */
  function GridRow(p: seq<string>, height: nat, tab: nat, i: nat): string
    requires height >= 1
  {
    var row := Lexitron.StepSlice(p, i, height);
    LinePrefix(row, tab, |row|)
  }

  /** Row `i`, column `c` of a `cols * height` grid is inside it. */
  lemma CellIndex(cols: nat, height: nat, i: nat, c: nat)
    requires i < height && c < cols
    ensures 0 <= c * height && i + c * height < cols * height
  {
    var d := cols - c - 1;
    assert cols * height == c * height + height + d * height;
    assert d * height >= 0;
  }

  /** The shape `wordcols` chooses for `words`, with the blanks appended. */
  function GridPadded(words: seq<string>, tab: nat, terminalWidth: int): (p: seq<string>)
    ensures var cols := GridColumns(|words|, tab, terminalWidth);
      |p| == cols * Lexitron.CeilDiv(|words|, cols)
    ensures p[..|words|] == words
    ensures forall i :: |words| <= i < |p| ==> p[i] == ""
  {
    var cols := GridColumns(|words|, tab, terminalWidth);
    var height := Lexitron.CeilDiv(|words|, cols);
    PaddingFillsGrid(|words|, cols);
    words + Lexitron.Blanks(PaddingCount(|words|, cols, height))
  }

  /** The lines of the multi-column layout of `wordcols`. */
  function GridLines(words: seq<string>, tab: nat, terminalWidth: int): seq<string> {
    var cols := GridColumns(|words|, tab, terminalWidth);
    var height := Lexitron.CeilDiv(|words|, cols);
    var p := GridPadded(words, tab, terminalWidth);
    GridRows(p, cols, height, tab)
  }

  /** The lines of a padded `cols * height` grid. */
  function GridRows(p: seq<string>, cols: nat, height: nat, tab: nat): (rows: seq<string>)
    requires |p| == cols * height
  {
    seq(height, i requires 0 <= i < height => GridRow(p, height, tab, i))
  }

  /** `wordcols`: a comma-separated list when `ugly`; one column of marked
      words for fewer than `2 * mincolheight` words (nothing at all for
      none); otherwise the words in a grid filled column after column. */
  method WordCols(words: seq<string>, tab: nat, ugly: bool, terminalWidth: int) returns (r: Option<string>)
    ensures ugly ==> r == Some(Join(", ", words) + "\n")
    ensures !ugly && |words| == 0 ==> r == None
    ensures !ugly && 0 < |words| < 2 * MinColHeight ==> r == Some(" + " + Join("\n + ", words) + "\n")
    ensures !ugly && |words| >= 2 * MinColHeight ==> r == Some(Lines(GridLines(words, tab, terminalWidth)))
  {
    var wcount := |words|;
    if ugly {
      return Some(Join(", ", words) + "\n");
    }
    if wcount < 2 * MinColHeight {
      return if wcount > 0 then Some(" + " + Join("\n + ", words) + "\n") else None;
    }
    var cols := GridColumns(wcount, tab, terminalWidth);
    var height := Lexitron.CeilDiv(wcount, cols);
    var padded := words + Lexitron.Blanks(PaddingCount(wcount, cols, height));
    assert padded == GridPadded(words, tab, terminalWidth);
    var wlist := GridRowsOf(padded, cols, height, tab);
    return Some(Join("\n", wlist) + "\n");
  }

  /** The lines of the grid, row by row. */
  method GridRowsOf(padded: seq<string>, cols: nat, height: nat, tab: nat) returns (wlist: seq<string>)
    requires |padded| == cols * height
    ensures wlist == GridRows(padded, cols, height, tab)
  {
    wlist := [];
    for i := 0 to height
      invariant |wlist| == i
      invariant forall j :: 0 <= j < i ==> wlist[j] == GridRow(padded, height, tab, j)
    {
      var line := GridLine(padded, cols, height, tab, i);
      wlist := wlist + [line];
    }
  }

  /** One line of the grid, cell by cell. */
  method GridLine(padded: seq<string>, cols: nat, height: nat, tab: nat, i: nat) returns (line: string)
    requires i < height && |padded| == cols * height
    ensures line == GridRow(padded, height, tab, i)
  {
    ghost var row := Lexitron.StepSlice(padded, i, height);
    Lexitron.ColumnMajor(padded, height, cols, i);
    line := "";
    for c := 0 to cols
      invariant line == LinePrefix(row, tab, c)
    {
      CellIndex(cols, height, i, c);
      assert row[c] == padded[i + c * height];
      var word := padded[i + c * height];
      if c != cols - 1 {
        word := LJust(padded[i + c * height], tab + 5);
      }
      if |Strip(word)| > 0 {
        line := line + (" + " + word);
      }
    }
  }

  /** Blank cells never show: when every word has a visible character, the
      cell at row `i`, column `c` is printed exactly when it holds one of
      the words rather than padding. */
  lemma OnlyWordsShow(words: seq<string>, tab: nat, terminalWidth: int, i: nat, c: nat)
    requires forall k :: 0 <= k < |words| ==> !AllSpace(words[k])
    requires i < Lexitron.CeilDiv(|words|, GridColumns(|words|, tab, terminalWidth))
    requires c < GridColumns(|words|, tab, terminalWidth)
    ensures var cols := GridColumns(|words|, tab, terminalWidth);
      var height := Lexitron.CeilDiv(|words|, cols);
      var row := Lexitron.StepSlice(GridPadded(words, tab, terminalWidth), i, height);
      && |row| == cols
      && (Cell(row[c], c == cols - 1, tab) != "" <==> i + c * height < |words|)
  {
    var cols := GridColumns(|words|, tab, terminalWidth);
    var height := Lexitron.CeilDiv(|words|, cols);
    var p := GridPadded(words, tab, terminalWidth);
    Lexitron.ColumnMajor(p, height, cols, i);
    CellIndex(cols, height, i, c);
    var x := i + c * height;
    var row := Lexitron.StepSlice(p, i, height);
    assert row[c] == p[x];
    var word := if c != cols - 1 then LJust(p[x], tab + 5) else p[x];
    if x < |words| {
      assert p[x] == p[..|words|][x] == words[x];
      var k :| 0 <= k < |words[x]| && !IsSpace(words[x][k]);
      assert word[k] == words[x][k];
    } else {
      assert p[x] == "";
      assert AllSpace(word);
    }
  }
}
