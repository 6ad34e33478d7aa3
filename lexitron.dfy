/** The `lexitron` package (`lexitron/lexitron.py`): the post-processing of a
    search over the two word lists (common and proper words), the summary
    header, and the column formatter that lays the matches out in a grid that
    fits the terminal.

    The regular expression is a predicate on words handed in by the caller;
    the word lists are the lines of the two dictionary files; the terminal
    size is a pair of parameters. */
module Lexitron {
  import opened Strings
  import opened Lists
  import opened Ordering

  /** The exceptions the package and the legacy script let escape. */
  datatype Error =
    | OptionsError(message: string)  // LexitronOptionsError
    | IndexError                     // indexing past the end of a string or list
    | PatternError                   // re.error, raised only by the legacy script's search

  datatype Result<T> = Ok(value: T) | Err(error: Error)

  /** The fields of the parsed command line that the core reads. */
  datatype Args = Args(expression: string, onlyCommon: bool, onlyProper: bool)

  /** The dictionary `search` returns, with its 'common' and 'proper' entries. */
  datatype Matches = Matches(common: seq<string>, proper: seq<string>)

  const MutuallyExclusive: string :=
    "Mutually exclusive options -u and -U may not be used together."

  function Max(a: int, b: int): int { if a < b then b else a }
  function Min(a: int, b: int): int { if a < b then a else b }

  predicate IsQuote(c: char) { c == '"' || c == '\'' }

  // ---------------------------------------------------------------------
  // sanitize and parse_line

  /** `sanitize`: drops one quotation mark at the front and one at the back.
      Indexing an empty string raises, so the empty expression and a lone
      quotation mark (empty once its first character is gone) fail. */
  function Sanitize(expr: string): (r: Result<string>)
    ensures r.Err? <==> |expr| == 0 || (|expr| == 1 && IsQuote(expr[0]))
    ensures r.Err? ==> r.error == IndexError
    ensures r.Ok? ==>
      var a := if IsQuote(expr[0]) then 1 else 0;
      var b := if IsQuote(expr[|expr| - 1]) then 1 else 0;
      a + b <= |expr| && r.value == expr[a..|expr| - b]
  {
    if |expr| == 0 then Err(IndexError)
    else
      var e := if IsQuote(expr[0]) then expr[1..] else expr;
      if |e| == 0 then Err(IndexError)
      else Ok(if IsQuote(e[|e| - 1]) then e[..|e| - 1] else e)
  }

  /** A quoted expression means the same as the bare one, and an expression
      with no quotation mark at either end is left alone. */
  lemma {:induction false} SanitizeQuoted(x: string, open: char, close: char)
    requires |x| > 0 && !IsQuote(x[0]) && !IsQuote(x[|x| - 1])
    requires IsQuote(open) && IsQuote(close)
    ensures Sanitize(x) == Ok(x)
    ensures Sanitize([open] + x + [close]) == Ok(x)
  {
    var q := [open] + x + [close];
    assert q[1..|q| - 1] == x;
    assert x[0..|x|] == x;
  }

  /** `parse_line`: the first whitespace-separated token of a line. A line
      made of whitespace alone has no token, and `split()[0]` raises. */
  function ParseLine(line: string): (r: Result<string>)
    ensures r.Err? <==> forall i :: 0 <= i < |line| ==> IsAsciiSpace(line[i])
    ensures r.Err? ==> r.error == IndexError
    ensures r.Ok? ==> |r.value| > 0
    ensures r.Ok? ==> forall i :: 0 <= i < |r.value| ==> !IsAsciiSpace(r.value[i])
    ensures r.Ok? ==> exists k :: 0 <= k <= |line| && TokenAt(line, k, r.value)
  {
    var t := SkipSpaces(line);
    if t == [] then Err(IndexError)
    else
      var w := TakeToken(t);
      var k := |line| - |t|;
      assert line[k..k + |w|] == t[..|w|];
      assert TokenAt(line, k, w);
      Ok(w)
  }

  /** `w` is a maximal run of non-whitespace in `line` at offset `k`, with
      only whitespace before it. */
  predicate TokenAt(line: string, k: nat, w: string) {
    && k + |w| <= |line|
    && (forall i :: 0 <= i < k ==> IsAsciiSpace(line[i]))
    && line[k..k + |w|] == w
    && (k + |w| == |line| || IsAsciiSpace(line[k + |w|]))
  }

  // ---------------------------------------------------------------------
  // search

  /** Every line of a word list has a token. */
  predicate AllParse(lines: seq<string>) {
    forall i :: 0 <= i < |lines| ==> ParseLine(lines[i]).Ok?
  }

  /** The words of a word list: the token of each line, in order. */
  function Words(lines: seq<string>): (ws: seq<string>)
    requires AllParse(lines)
    ensures |ws| == |lines|
    ensures forall i :: 0 <= i < |lines| ==> ws[i] == ParseLine(lines[i]).value
    decreases |lines|
  {
    if lines == [] then []
    else Words(lines[..|lines| - 1]) + [ParseLine(lines[|lines| - 1]).value]
  }

  /** One more parsed line adds its token to the matches when it matches. */
  lemma ScanStep(lines: seq<string>, i: nat, matches: string -> bool)
    requires i < |lines| && AllParse(lines[..i]) && ParseLine(lines[i]).Ok?
    ensures AllParse(lines[..i + 1])
    ensures var w := ParseLine(lines[i]).value;
      Filter(Words(lines[..i + 1]), matches) == Filter(Words(lines[..i]), matches) + if matches(w) then [w] else []
  {
    var pre := lines[..i];
    var w := ParseLine(lines[i]).value;
    assert lines[..i + 1] == pre + [lines[i]];
    WordsSnoc(pre, lines[i]);
    assert Words(lines[..i + 1]) == Words(pre) + [w];
    FilterSnoc(Words(pre), w, matches);
  }

  lemma WordsSnoc(lines: seq<string>, line: string)
    requires AllParse(lines) && ParseLine(line).Ok?
    ensures AllParse(lines + [line])
    ensures Words(lines + [line]) == Words(lines) + [ParseLine(line).value]
  {
    assert (lines + [line])[..|lines|] == lines;
  }

  /** One of the two loops of `search`: the tokens of the lines of a word
      list that the expression matches, in the order of the list. A line
      without a token stops the loop with the error `split()[0]` raises. */
  method ScanWordlist(lines: seq<string>, matches: string -> bool) returns (r: Result<seq<string>>)
    ensures r.Err? <==> !AllParse(lines)
    ensures r.Err? ==> r.error == IndexError
    ensures r.Ok? ==> r.value == Filter(Words(lines), matches)
  {
    var found: seq<string> := [];
    for i := 0 to |lines|
      invariant AllParse(lines[..i])
      invariant found == Filter(Words(lines[..i]), matches)
    {
      var word := ParseLine(lines[i]);
      if word.Err? {
        // the line that breaks AllParse(lines), as an element of the prefix
        assert lines[i] == lines[..i + 1][i];
        return Err(IndexError);
      }
      var w := word.value;
      ScanStep(lines, i, matches);
      if matches(w) {
        found := found + [w];
      }
    }
    assert lines[..|lines|] == lines;
    return Ok(found);
  }

  /** `search`: refuses `-u` together with `-U`; otherwise scans the common
      list unless `-U` is set and the proper list unless `-u` is set, and
      returns each list's matches without duplicates, in ascending order. */
  method Search(args: Args, wordlistCommon: seq<string>, wordlistProper: seq<string>,
                matches: string -> bool) returns (r: Result<Matches>)
    ensures args.onlyCommon && args.onlyProper ==> r == Err(OptionsError(MutuallyExclusive))
    ensures r.Err? && !(args.onlyCommon && args.onlyProper) ==> r.error == IndexError
    ensures r.Err? <==> (args.onlyCommon && args.onlyProper)
                        || (!args.onlyProper && !AllParse(wordlistCommon))
                        || (!args.onlyCommon && !AllParse(wordlistProper))
    ensures r.Ok? ==> StrictlyAscending(r.value.common) && StrictlyAscending(r.value.proper)
    ensures r.Ok? ==> forall w :: w in r.value.common <==>
                        !args.onlyProper && w in Words(wordlistCommon) && matches(w)
    ensures r.Ok? ==> forall w :: w in r.value.proper <==>
                        !args.onlyCommon && w in Words(wordlistProper) && matches(w)
    ensures r.Ok? ==> r.value.common == if args.onlyProper then []
                                        else SortedSet(Filter(Words(wordlistCommon), matches))
    ensures r.Ok? ==> r.value.proper == if args.onlyCommon then []
                                        else SortedSet(Filter(Words(wordlistProper), matches))
  {
    if args.onlyCommon && args.onlyProper {
      return Err(OptionsError(MutuallyExclusive));
    }
    var common: seq<string> := [];
    var proper: seq<string> := [];
    if !args.onlyProper {
      var found := ScanWordlist(wordlistCommon, matches);
      if found.Err? {
        return Err(found.error);
      }
      common := found.value;
    }
    if !args.onlyCommon {
      var found := ScanWordlist(wordlistProper, matches);
      if found.Err? {
        return Err(found.error);
      }
      proper := found.value;
    }
    return Ok(Matches(SortedSet(common), SortedSet(proper)));
  }

  /** What `search` returns for a word list depends only on which words the
      list holds: the same words in another order, or with lines repeated,
      give the same list of matches. */
  lemma SearchIgnoresListOrder(lines: seq<string>, other: seq<string>, matches: string -> bool)
    requires AllParse(lines) && AllParse(other)
    requires forall w :: w in Words(lines) <==> w in Words(other)
    ensures SortedSet(Filter(Words(lines), matches)) == SortedSet(Filter(Words(other), matches))
  {
    AscendingUnique(SortedSet(Filter(Words(lines), matches)), SortedSet(Filter(Words(other), matches)));
  }

  // ---------------------------------------------------------------------
  // header

  /** The third line of the header: the per-category counts, or a note that
      only one category was searched. */
  function Breakdown(commons: seq<string>, propers: seq<string>, args: Args): string {
    if args.onlyProper || args.onlyCommon then "(restricted search)"
    else Join(" ~ ", [NatToString(|propers|) + " proper", NatToString(|commons|) + " common"])
  }

  /** The second line of the header. */
  function CountLine(total: nat, expr: string): string {
    NatToString(total) + " results for /" + expr + "/"
  }

  /** `header`: a rule of `width` dashes, the total and the sanitized
      expression, the breakdown, and the rule again, each on its own line.
      It fails exactly when sanitizing the expression fails. */
  function Header(commons: seq<string>, propers: seq<string>, args: Args, width: int): (r: Result<string>)
    ensures r.Err? <==> Sanitize(args.expression).Err?
    ensures r.Ok? ==> r.value == Lines([Repeat('-', width),
                                        CountLine(|commons| + |propers|, Sanitize(args.expression).value),
                                        Breakdown(commons, propers, args),
                                        Repeat('-', width)])
  {
    var rule := Repeat('-', width);
    var total := |commons + propers|;
    var expr := Sanitize(args.expression);
    if expr.Err? then Err(expr.error)
    else
      var breakdown := Breakdown(commons, propers, args);
      var count := CountLine(total, expr.value);
      LinesOfFour(rule, count, breakdown, rule);
      Ok(rule + "\n" + count + "\n" + breakdown + "\n" + rule + "\n")
  }

  /** Read line by line, the header has its four lines: the total read back
      from the second line is the number of matches in both categories,
      and the breakdown reports the two counts unless the search was
      restricted. */
  lemma HeaderLines(commons: seq<string>, propers: seq<string>, args: Args, width: int)
    requires Sanitize(args.expression).Ok?
    requires '\n' !in args.expression
    ensures var lines := Split(Header(commons, propers, args, width).value, '\n');
      && |lines| == 5
      && lines[0] == lines[3] == Repeat('-', width)
      && lines[1] == CountLine(|commons| + |propers|, Sanitize(args.expression).value)
      && lines[2] == Breakdown(commons, propers, args)
      && lines[4] == ""
    ensures var digits := NatToString(|commons| + |propers|);
      DecimalValue(digits) == |commons| + |propers|
      && CountLine(|commons| + |propers|, Sanitize(args.expression).value)[..|digits|] == digits
    ensures Breakdown(commons, propers, args) == "(restricted search)" <==> args.onlyCommon || args.onlyProper
  {
    var e := Sanitize(args.expression).value;
    var ls := [Repeat('-', width), CountLine(|commons| + |propers|, e),
               Breakdown(commons, propers, args), Repeat('-', width)];
    HeaderPiecesFree(commons, propers, args, width, e);
    LinesSplit(ls);
    BreakdownRestricted(commons, propers, args);
  }

  lemma HeaderPiecesFree(commons: seq<string>, propers: seq<string>, args: Args, width: int, e: string)
    requires '\n' !in e
    ensures '\n' !in Repeat('-', width)
    ensures '\n' !in CountLine(|commons| + |propers|, e)
    ensures '\n' !in Breakdown(commons, propers, args)
  {
  }

  lemma BreakdownRestricted(commons: seq<string>, propers: seq<string>, args: Args)
    ensures Breakdown(commons, propers, args) == "(restricted search)" <==> args.onlyCommon || args.onlyProper
  {
    var n := NatToString(|propers|);
    if !(args.onlyCommon || args.onlyProper) {
      assert Breakdown(commons, propers, args)[0] == n[0];
    }
  }

  // ---------------------------------------------------------------------
  // formatted

  /** The blank columns between two columns of output. */
  const Gutter: nat := 4

  /** `max(len(word) for word in words)`. */
  function MaxLength(words: seq<string>): (w: nat)
    requires |words| > 0
    ensures forall i :: 0 <= i < |words| ==> |words[i]| <= w
    ensures exists i :: 0 <= i < |words| && |words[i]| == w
    decreases |words|
  {
    if |words| == 1 then |words[0]|
    else Max(|words[0]|, MaxLength(words[1..]))
  }

  /** `c` columns of width `colWidth`, with a gutter between each two, fit in
      `termWidth` characters. */
  predicate Fits(c: int, colWidth: nat, termWidth: int) {
    c * colWidth + (c - 1) * Gutter <= termWidth
  }

  /** `maxnumcols`: the largest number of columns that fits the terminal, or
      one column when not even one fits. */
  function MaxColumns(colWidth: nat, termWidth: int): (m: int)
    ensures m >= 1
    ensures Fits(m, colWidth, termWidth) || (m == 1 && !Fits(1, colWidth, termWidth))
    ensures !Fits(m + 1, colWidth, termWidth)
  {
    var q := (Gutter + termWidth) / (Gutter + colWidth);
    FloorBounds(Gutter + termWidth, Gutter + colWidth);
    FitsIff(q, colWidth, termWidth);
    FitsIff(q + 1, colWidth, termWidth);
    FitsIff(1, colWidth, termWidth);
    FitsIff(2, colWidth, termWidth);
    Max(1, q)
  }

  lemma FloorBounds(a: int, b: int)
    requires b > 0
    ensures (a / b) * b <= a < (a / b + 1) * b
  {
  }

  lemma FitsIff(c: int, colWidth: nat, termWidth: int)
    ensures Fits(c, colWidth, termWidth) <==> c * (colWidth + Gutter) <= termWidth + Gutter
  {
    assert c * (colWidth + Gutter) == c * colWidth + c * Gutter;
  }

  /** `ceil(a / b)` for a positive `b`: the least `q` with `q * b >= a`. */
  function CeilDiv(a: nat, b: int): (q: nat)
    requires b >= 1
    ensures q * b >= a && (q - 1) * b < a
  {
    var q := (a + b - 1) / b;
    FloorBounds(a + b - 1, b);
    q
  }

  /** The column count the terminal height suggests, `ceil(n / (height/2))`:
      the least number of columns of at most half the height each that hold
      `n` words. */
  function HeightColumns(n: nat, termHeight: int): (h: nat)
    requires termHeight >= 1
    ensures h * termHeight >= 2 * n && (h - 1) * termHeight < 2 * n
  {
    CeilDiv(2 * n, termHeight)
  }

  /** The shape `formatted` chooses. */
  datatype Grid = Grid(colWidth: nat, maxCols: int, cols: nat, rows: nat)

  /** `colwidth`, `maxnumcols`, `numcols` and `numrows` of `formatted`. */
  function Layout(words: seq<string>, termWidth: int, termHeight: int): (g: Grid)
    requires |words| > 0 && termHeight >= 1
    ensures g.colWidth == MaxLength(words)
    ensures g.maxCols == MaxColumns(g.colWidth, termWidth)
    ensures 1 <= g.cols <= g.maxCols
    ensures g.cols <= HeightColumns(|words|, termHeight)
    ensures g.cols == g.maxCols || g.cols == HeightColumns(|words|, termHeight)
    ensures g.rows >= 1
    ensures g.cols * g.rows >= |words| && g.cols * g.rows - |words| < g.cols
  {
    var n := |words|;
    var colWidth := MaxLength(words);
    var maxCols := MaxColumns(colWidth, termWidth);
    var cols := Max(1, Min(maxCols, HeightColumns(n, termHeight)));
    var rows := CeilDiv(n, cols);
    HeightColumnsPositive(n, termHeight);
    RowsFit(n, cols);
    Grid(colWidth, maxCols, cols, rows)
  }

  lemma HeightColumnsPositive(n: nat, termHeight: int)
    requires n >= 1 && termHeight >= 1
    ensures HeightColumns(n, termHeight) >= 1
  {
    var h := HeightColumns(n, termHeight);
    assert h * termHeight >= 1;
  }

  /** `ceil(n / cols)` rows of `cols` hold the `n` words, with fewer than
      one row's worth of room to spare. */
  lemma RowsFit(n: nat, cols: int)
    requires n >= 1 && cols >= 1
    ensures var rows := CeilDiv(n, cols);
      rows >= 1 && cols * rows >= n && cols * rows - n < cols
  {
    var rows := CeilDiv(n, cols);
    assert (rows - 1) * cols == rows * cols - cols;
    assert rows * cols >= 1;
  }

  /** `[''] * k`. */
  function Blanks(k: int): (r: seq<string>)
    ensures |r| == if k <= 0 then 0 else k
    ensures forall i :: 0 <= i < |r| ==> r[i] == ""
    decreases k
  {
    if k <= 0 then [] else [""] + Blanks(k - 1)
  }

  /** The words filled up with blanks to the full rectangle. */
  function Padded(words: seq<string>, g: Grid): (p: seq<string>)
    requires g.cols * g.rows >= |words|
    ensures |p| == g.cols * g.rows
    ensures p[..|words|] == words
    ensures forall i :: |words| <= i < |p| ==> p[i] == ""
  {
    words + Blanks(g.cols * g.rows - |words|)
  }

  /** The slice `s[start::step]`. */
  function StepSlice(s: seq<string>, start: nat, step: nat): (r: seq<string>)
    requires step >= 1
    decreases |s| - start
  {
    if start >= |s| then [] else [s[start]] + StepSlice(s, start + step, step)
  }

  /** Element `j` of `s[start::step]` is `s[start + j * step]`. */
  lemma {:induction false} StepSliceAt(s: seq<string>, start: nat, step: nat, j: nat)
    requires step >= 1 && start + j * step < |s|
    ensures j < |StepSlice(s, start, step)|
    ensures StepSlice(s, start, step)[j] == s[start + j * step]
    decreases j
  {
    if j > 0 {
      assert start + step + (j - 1) * step == start + j * step;
      StepSliceAt(s, start + step, step, j - 1);
    }
  }

  /** `s[start::step]` has `count` elements when the last of them is the
      last index below `|s|` on the way up from `start`. */
  lemma {:induction false} StepSliceLength(s: seq<string>, start: nat, step: nat, count: nat)
    requires step >= 1 && start + count * step >= |s|
    requires count == 0 || start + (count - 1) * step < |s|
    ensures |StepSlice(s, start, step)| == count
    decreases count
  {
    if count > 0 {
      assert start + step + (count - 1) * step == start + count * step;
      if count > 1 {
        assert start + step + (count - 2) * step == start + (count - 1) * step;
      }
      StepSliceLength(s, start + step, step, count - 1);
    }
  }

  /** The padded word at row `k`, column `j` of a grid stored column after column. */
  function At(p: seq<string>, rows: nat, k: nat, j: nat): string
    requires k + j * rows < |p|
  {
    p[k + j * rows]
  }

  /** `s[k::rows]` of a `cols * rows` rectangle stored column after column is
      row `k`: one element from each column, in column order. */
  lemma ColumnMajor(p: seq<string>, rows: nat, cols: nat, k: nat)
    requires rows >= 1 && k < rows && |p| == cols * rows
    ensures |StepSlice(p, k, rows)| == cols
    ensures forall j :: 0 <= j < cols ==> k + j * rows < |p| && StepSlice(p, k, rows)[j] == At(p, rows, k, j)
  {
    if cols > 0 {
      assert (cols - 1) * rows + rows == cols * rows;
    }
    StepSliceLength(p, k, rows, cols);
    forall j | 0 <= j < cols
      ensures k + j * rows < |p| && StepSlice(p, k, rows)[j] == At(p, rows, k, j)
    {
      MulMonotone(j + 1, cols, rows);
      assert (j + 1) * rows == j * rows + rows;
      StepSliceAt(p, k, rows, j);
    }
  }

  /** Each word left-justified to `width`. */
  function Justified(ws: seq<string>, width: int): (r: seq<string>)
    ensures |r| == |ws|
    ensures forall i :: 0 <= i < |ws| ==> r[i] == LJust(ws[i], width)
  {
    seq(|ws|, i requires 0 <= i < |ws| => LJust(ws[i], width))
  }

  /** Row `k` before `rstrip`: the cells of row `k`, each left-justified to
      the column width plus the gutter. */
  function UnstrippedRow(p: seq<string>, k: nat, g: Grid): string
    requires g.rows >= 1
  {
    Concat(Justified(StepSlice(p, k, g.rows), g.colWidth + Gutter))
  }

  /** The rows of output, `rowlist` of `formatted`. */
  function RowList(words: seq<string>, termWidth: int, termHeight: int): (rs: seq<string>)
    requires |words| > 0 && termHeight >= 1
  {
    var g := Layout(words, termWidth, termHeight);
    Rows(Padded(words, g), g)
  }

  /** The rows of the grid `g` over `p`, trailing whitespace stripped. */
  function Rows(p: seq<string>, g: Grid): (rs: seq<string>)
    requires g.rows >= 1
  {
    seq(g.rows, k requires 0 <= k < g.rows => RStrip(UnstrippedRow(p, k, g)))
  }

  /** `formatted`: lays the words out in columns, filled column after column,
      and returns the rows, each followed by a newline. */
  method Formatted(words: seq<string>, termWidth: int, termHeight: int) returns (text: string)
    requires |words| > 0 && termHeight >= 1
    ensures text == Lines(RowList(words, termWidth, termHeight))
  {
    var n := |words|;
    var colWidth := MaxLength(words);
    var maxNumCols := MaxColumns(colWidth, termWidth);
    var numCols := Max(1, Min(maxNumCols, HeightColumns(n, termHeight)));
    var numRows := CeilDiv(n, numCols);
    ghost var g := Layout(words, termWidth, termHeight);
    assert g == Grid(colWidth, maxNumCols, numCols, numRows);
    var padded := words + Blanks(numCols * numRows - n);
    assert padded == Padded(words, g);
    var rowList := JustifiedRows(padded, colWidth, numRows, g);
    text := Join("\n", rowList) + "\n";
  }

  /** The loop of `formatted` that builds `rowlist`: row `k` joins every
      `numRows`-th padded word from the `k`-th on, each justified to the
      column width plus the gutter, and drops the trailing blanks. */
  method JustifiedRows(padded: seq<string>, colWidth: nat, numRows: nat, ghost g: Grid) returns (rowList: seq<string>)
    requires numRows >= 1 && g.rows == numRows && g.colWidth == colWidth
    ensures rowList == Rows(padded, g)
  {
    rowList := [];
    for k := 0 to numRows
      invariant |rowList| == k
      invariant forall i :: 0 <= i < k ==> rowList[i] == RStrip(UnstrippedRow(padded, i, g))
    {
      var row := Concat(Justified(StepSlice(padded, k, numRows), colWidth + Gutter));
      rowList := rowList + [RStrip(row)];
    }
  }

  /** Every padded word fits the column width. */
  lemma PaddedFits(words: seq<string>, g: Grid)
    requires |words| > 0 && g.cols * g.rows >= |words|
    requires g.colWidth == MaxLength(words)
    ensures forall i :: 0 <= i < |Padded(words, g)| ==> |Padded(words, g)[i]| <= g.colWidth
  {
    var p := Padded(words, g);
    forall i | 0 <= i < |p| ensures |p[i]| <= g.colWidth {
      if i < |words| { assert p[i] == p[..|words|][i]; }
    }
  }

  /** Row `k` of a `cols * rows` grid stored column after column, before
      stripping: every cell is exactly `colWidth + Gutter` characters wide,
      and column `j` starts at offset `j * (colWidth + Gutter)` with the
      element at `k + j * rows`, followed by spaces. */
  lemma GridRowCells(p: seq<string>, g: Grid, k: nat, j: nat)
    requires g.rows >= 1 && k < g.rows && j < g.cols && |p| == g.cols * g.rows
    requires forall i :: 0 <= i < |p| ==> |p[i]| <= g.colWidth
    ensures k + j * g.rows < |p|
    ensures |UnstrippedRow(p, k, g)| == g.cols * (g.colWidth + Gutter)
    ensures CellLaidOut(UnstrippedRow(p, k, g), g.colWidth + Gutter, j, p[k + j * g.rows])
  {
    var width := g.colWidth + Gutter;
    var js := Justified(StepSlice(p, k, g.rows), width);
    JustifiedRow(p, g, k);
    var w := At(p, g.rows, k, j);
    assert w == p[k + j * g.rows] && |w| <= g.colWidth;
    JustifiedCellAt(js, width, j, w);
    assert UnstrippedRow(p, k, g) == Concat(js) && |js| == g.cols;
  }

  /** Cell `j` of the row `u`, whose cells are `width` wide, is `w`
      left-justified: it sits at offset `j * width` and starts with `w`. */
  predicate CellLaidOut(u: string, width: nat, j: nat, w: string) {
    && 0 <= j * width && j * width + width <= |u|
    && |w| <= width
    && u[j * width .. j * width + width] == LJust(w, width)
    && u[j * width .. j * width + |w|] == w
  }

  /** In a row of cells all `width` wide, cell `j` (the word `w`
      left-justified) sits at offset `j * width`, starting with `w`. */
  lemma JustifiedCellAt(js: seq<string>, width: nat, j: nat, w: string)
    requires forall i :: 0 <= i < |js| ==> |js[i]| == width
    requires j < |js| && |w| <= width && js[j] == LJust(w, width)
    ensures |Concat(js)| == |js| * width
    ensures CellLaidOut(Concat(js), width, j, w)
  {
    var o := j * width;
    MulMonotone(0, j, width);
    ConcatUniform(js, width, j);
    var u := Concat(js);
    assert u[o .. o + width] == LJust(w, width);
    SlicePrefix(u, o, width, |w|);
    assert u[o .. o + |w|] == LJust(w, width)[..|w|];
  }

  /** The justified cells of row `k`: one per column, each `colWidth +
      Gutter` wide, column `j` holding the element at `k + j * rows`. */
  lemma JustifiedRow(p: seq<string>, g: Grid, k: nat)
    requires g.rows >= 1 && k < g.rows && |p| == g.cols * g.rows
    requires forall i :: 0 <= i < |p| ==> |p[i]| <= g.colWidth
    ensures var js := Justified(StepSlice(p, k, g.rows), g.colWidth + Gutter);
      && |js| == g.cols
      && (forall i :: 0 <= i < |js| ==> |js[i]| == g.colWidth + Gutter)
      && (forall j :: 0 <= j < g.cols ==>
            k + j * g.rows < |p| && js[j] == LJust(At(p, g.rows, k, j), g.colWidth + Gutter))
  {
    ColumnMajor(p, g.rows, g.cols, k);
    var cells := StepSlice(p, k, g.rows);
    var js := Justified(cells, g.colWidth + Gutter);
    forall i | 0 <= i < |js| ensures |js[i]| == g.colWidth + Gutter {
      assert cells[i] == At(p, g.rows, k, i);
    }
  }

  /** Row `k` of the output of `formatted`, before stripping: every cell is
      exactly `colWidth + Gutter` characters wide, because no word is longer
      than `colWidth`; column `j` starts at offset `j * (colWidth + Gutter)`
      and begins with the padded word at `k + j * rows` (column-major fill). */
  lemma RowCells(words: seq<string>, termWidth: int, termHeight: int, k: nat, j: nat)
    requires |words| > 0 && termHeight >= 1
    requires k < Layout(words, termWidth, termHeight).rows
    requires j < Layout(words, termWidth, termHeight).cols
    ensures var g := Layout(words, termWidth, termHeight);
      var p := Padded(words, g);
      && k + j * g.rows < |p|
      && |UnstrippedRow(p, k, g)| == g.cols * (g.colWidth + Gutter)
      && CellLaidOut(UnstrippedRow(p, k, g), g.colWidth + Gutter, j, p[k + j * g.rows])
  {
    var g := Layout(words, termWidth, termHeight);
    var p := Padded(words, g);
    PaddedFits(words, g);
    GridRowCells(p, g, k, j);
  }

  /** The printed rows: `rows` of them, row `k` being row `k` of the grid
      without its trailing whitespace. */
  lemma RowsStripped(words: seq<string>, termWidth: int, termHeight: int, k: nat)
    requires |words| > 0 && termHeight >= 1
    requires k < Layout(words, termWidth, termHeight).rows
    ensures var g := Layout(words, termWidth, termHeight);
      var u := UnstrippedRow(Padded(words, g), k, g);
      var rs := RowList(words, termWidth, termHeight);
      && |rs| == g.rows
      && rs[k] == u[..|rs[k]|]
      && (rs[k] == [] || !IsSpace(rs[k][|rs[k]| - 1]))
      && AllSpace(u[|rs[k]|..])
  {
  }

  /** Printed, the output has one line per row: when no word holds a
      newline, splitting the text at newlines gives back the rows and the
      empty remainder after the final newline. */
  lemma OutputLines(words: seq<string>, termWidth: int, termHeight: int)
    requires |words| > 0 && termHeight >= 1
    requires forall i :: 0 <= i < |words| ==> '\n' !in words[i]
    ensures var rs := RowList(words, termWidth, termHeight);
      Split(Lines(rs), '\n') == rs + [""] && |rs| == Layout(words, termWidth, termHeight).rows
  {
    var g := Layout(words, termWidth, termHeight);
    var p := Padded(words, g);
    var rs := RowList(words, termWidth, termHeight);
    forall i | 0 <= i < |p| ensures '\n' !in p[i] {
      if i < |words| { assert p[i] == p[..|words|][i]; }
    }
    forall k | 0 <= k < |rs| ensures '\n' !in rs[k] {
      RowFree(p, k, g);
    }
    LinesSplit(rs);
  }

  /** A row built from newline-free cells holds no newline. */
  lemma RowFree(p: seq<string>, k: nat, g: Grid)
    requires g.rows >= 1
    requires forall i :: 0 <= i < |p| ==> '\n' !in p[i]
    ensures '\n' !in RStrip(UnstrippedRow(p, k, g))
  {
    var cells := StepSlice(p, k, g.rows);
    StepSliceFree(p, k, g.rows);
    var js := Justified(cells, g.colWidth + Gutter);
    forall i | 0 <= i < |js| ensures '\n' !in js[i] {
      assert js[i] == cells[i] + Repeat(' ', g.colWidth + Gutter - |cells[i]|);
    }
    ConcatFree(js, '\n');
    var u := UnstrippedRow(p, k, g);
    var r := RStrip(u);
    assert r == u[..|r|];
  }

  lemma {:induction false} StepSliceFree(p: seq<string>, start: nat, step: nat)
    requires step >= 1
    requires forall i :: 0 <= i < |p| ==> '\n' !in p[i]
    ensures forall i :: 0 <= i < |StepSlice(p, start, step)| ==> '\n' !in StepSlice(p, start, step)[i]
    decreases |p| - start
  {
    if start < |p| {
      StepSliceFree(p, start + step, step);
    }
  }

  lemma {:induction false} ConcatFree(xs: seq<string>, c: char)
    requires forall i :: 0 <= i < |xs| ==> c !in xs[i]
    ensures c !in Concat(xs)
    decreases |xs|
  {
    if |xs| > 0 { ConcatFree(xs[1..], c); }
  }
}
