/**
 * The HTML report: four titled sections, each a table of charm cards laid
 * out `numInRow` to a row. The report is described as a sequence of
 * fragments (fixed markup, row breaks and cards) whose rendering is the
 * text the script writes; the fragments make it possible to say which
 * cards the page holds and where its rows break even though the ids are
 * pasted into the markup without escaping.
 */
module Report {
  import opened Strings

  const DefaultRowWidth := 4
  const TableOpen := "<table><tr>\n"
  const RowBreakMarkup := "</tr><tr>"
  const TableClose := "</tr></table>\n"
  const PageOpen := "<html><body>\n"
  const CardsScript := "<script src=\"https://assets.ubuntu.com/v1/juju-cards-v1.3.0.js\"></script>\n"
  const NewPromulgatedTitle := "<h2>New recommeded charms</h2>\n"
  /** The only heading the script writes without a trailing newline. */
  const NewCommunityTitle := "<h2>New community charms</h2>"
  const UpdatedPromulgatedTitle := "<h2>New revisions of recommeded charms</h2>\n"
  const UpdatedCommunityTitle := "<h2>New revisions of community charms</h2>\n"
  const PageClose := "</html>"

  function DateHeading(date: string): string
  {
    "<h1>New charms on " + date + "</h1>\n"
  }

  /** One grid cell: a card widget whose `data-id` is the charm id, unescaped. */
  function CardCell(charmId: string): string
  {
    "<td><div class=\"juju-card\" data-id=\"" + charmId + "\"></div></td>\n"
  }

  datatype Fragment = Markup(text: string) | RowBreak | Card(charmId: string)

  function Render(f: Fragment): string
  {
    match f
    case Markup(text) => text
    case RowBreak => RowBreakMarkup
    case Card(charmId) => CardCell(charmId)
  }

  function RenderAll(fs: seq<Fragment>): string
  {
    if fs == [] then "" else Render(fs[0]) + RenderAll(fs[1..])
  }

  /** The charm ids of the cards, in page order. */
  function Cards(fs: seq<Fragment>): seq<string>
  {
    if fs == [] then []
    else (if fs[0].Card? then [fs[0].charmId] else []) + Cards(fs[1..])
  }

  /** The fixed markup, in page order. */
  function Markups(fs: seq<Fragment>): seq<string>
  {
    if fs == [] then []
    else (if fs[0].Markup? then [fs[0].text] else []) + Markups(fs[1..])
  }

  function RowBreakCount(fs: seq<Fragment>): nat
  {
    if fs == [] then 0 else (if fs[0].RowBreak? then 1 else 0) + RowBreakCount(fs[1..])
  }

  lemma {:induction false} RenderAllAppend(a: seq<Fragment>, b: seq<Fragment>)
    ensures RenderAll(a + b) == RenderAll(a) + RenderAll(b)
  {
    if a == [] {
      assert a + b == b;
    } else {
      assert (a + b)[1..] == a[1..] + b;
      RenderAllAppend(a[1..], b);
    }
  }

  lemma {:induction false} CardsAppend(a: seq<Fragment>, b: seq<Fragment>)
    ensures Cards(a + b) == Cards(a) + Cards(b)
  {
    if a == [] {
      assert a + b == b;
    } else {
      assert (a + b)[1..] == a[1..] + b;
      CardsAppend(a[1..], b);
    }
  }

  lemma {:induction false} MarkupsAppend(a: seq<Fragment>, b: seq<Fragment>)
    ensures Markups(a + b) == Markups(a) + Markups(b)
  {
    if a == [] {
      assert a + b == b;
    } else {
      assert (a + b)[1..] == a[1..] + b;
      MarkupsAppend(a[1..], b);
    }
  }

  lemma {:induction false} RowBreakCountAppend(a: seq<Fragment>, b: seq<Fragment>)
    ensures RowBreakCount(a + b) == RowBreakCount(a) + RowBreakCount(b)
  {
    if a == [] {
      assert a + b == b;
    } else {
      assert (a + b)[1..] == a[1..] + b;
      RowBreakCountAppend(a[1..], b);
    }
  }

  // ---------------------------------------------------------------------
  // processHtmlRows
  // ---------------------------------------------------------------------

  /**
   * The cells of a grid whose first card sits at position `pos`: a row
   * break goes before every card whose position is a multiple of
   * `numInRow`. Python's `%` and this one agree on whether the remainder
   * is 0 for either sign of `numInRow`; 0 is only refused once there is a
   * card to place, as the script only divides inside its loop.
   */
  function GridFragments(charms: seq<string>, numInRow: int, pos: nat): seq<Fragment>
    requires charms != [] ==> numInRow != 0
  {
    if charms == [] then []
    else Cell(charms[0], numInRow, pos) + GridFragments(charms[1..], numInRow, pos + 1)
  }

  /** The card at position `pos`, preceded by a row break when it starts a row. */
  function Cell(charmId: string, numInRow: int, pos: nat): seq<Fragment>
    requires numInRow != 0
  {
    (if pos % numInRow == 0 then [RowBreak] else []) + [Card(charmId)]
  }

  lemma RenderCell(charmId: string, numInRow: int, pos: nat)
    requires numInRow != 0
    ensures RenderAll(Cell(charmId, numInRow, pos)) ==
            (if pos % numInRow == 0 then RowBreakMarkup else "") + CardCell(charmId)
  {
    var cell := Cell(charmId, numInRow, pos);
    if pos % numInRow == 0 {
      assert cell == [RowBreak, Card(charmId)];
      assert cell[1..] == [Card(charmId)];
      assert cell[1..][1..] == [];
      assert RenderAll(cell[1..]) == CardCell(charmId) + RenderAll([]);
      assert RenderAll(cell) == RowBreakMarkup + RenderAll(cell[1..]);
    } else {
      assert cell == [Card(charmId)];
      assert cell[1..] == [];
      assert RenderAll(cell) == CardCell(charmId) + RenderAll([]);
    }
  }

  function TableFragments(charms: seq<string>, numInRow: int): seq<Fragment>
    requires charms != [] ==> numInRow != 0
  {
    [Markup(TableOpen)] + GridFragments(charms, numInRow, 0) + [Markup(TableClose)]
  }

  /** The text `processHtmlRows(charms, numInRow)` returns. */
  function HtmlRows(charms: seq<string>, numInRow: int): string
    requires charms != [] ==> numInRow != 0
  {
    RenderAll(TableFragments(charms, numInRow))
  }

  /** Placing the card at `pos` appends its cell to the grid. */
  lemma GridStep(charms: seq<string>, numInRow: int, pos: nat)
    requires numInRow != 0 && pos < |charms|
    ensures RenderAll(GridFragments(charms[..pos + 1], numInRow, 0)) ==
            RenderAll(GridFragments(charms[..pos], numInRow, 0)) + RenderAll(Cell(charms[pos], numInRow, pos))
  {
    assert charms[..pos + 1] == charms[..pos] + [charms[pos]];
    GridSnoc(charms[..pos], charms[pos], numInRow);
    RenderAllAppend(GridFragments(charms[..pos], numInRow, 0), Cell(charms[pos], numInRow, pos));
  }

  lemma GridSnoc(charms: seq<string>, x: string, numInRow: int)
    requires numInRow != 0
    ensures GridFragments(charms + [x], numInRow, 0) ==
            GridFragments(charms, numInRow, 0) + Cell(x, numInRow, |charms|)
  {
    GridSplit(charms, [x], numInRow, 0);
    assert GridFragments([x], numInRow, |charms|) == Cell(x, numInRow, |charms|) + [] by {
      assert [x][1..] == [];
    }
  }

  /** Appending `p` then `q` to `open + before` gives `open + after` when `after` is `before + (p + q)`. */
  lemma ExtendText(html: string, open: string, before: string, after: string, p: string, q: string)
    requires html == open + before && after == before + (p + q)
    ensures html + p + q == open + after
  {
  }

  /** A turn of the loop in `ProcessHtmlRows` at the start of a row: a row break, then the card. */
  lemma AppendFirstCell(charms: seq<string>, numInRow: int, pos: nat, html: string)
    requires numInRow != 0 && pos < |charms| && pos % numInRow == 0
    requires html == TableOpen + RenderAll(GridFragments(charms[..pos], numInRow, 0))
    ensures html + RowBreakMarkup + CardCell(charms[pos]) ==
            TableOpen + RenderAll(GridFragments(charms[..pos + 1], numInRow, 0))
  {
    GridStep(charms, numInRow, pos);
    RenderCell(charms[pos], numInRow, pos);
    ExtendText(html, TableOpen, RenderAll(GridFragments(charms[..pos], numInRow, 0)),
               RenderAll(GridFragments(charms[..pos + 1], numInRow, 0)), RowBreakMarkup, CardCell(charms[pos]));
  }

  /** A turn of the loop in `ProcessHtmlRows` inside a row: just the card. */
  lemma AppendNextCell(charms: seq<string>, numInRow: int, pos: nat, html: string)
    requires numInRow != 0 && pos < |charms| && pos % numInRow != 0
    requires html == TableOpen + RenderAll(GridFragments(charms[..pos], numInRow, 0))
    ensures html + CardCell(charms[pos]) ==
            TableOpen + RenderAll(GridFragments(charms[..pos + 1], numInRow, 0))
  {
    GridStep(charms, numInRow, pos);
    RenderCell(charms[pos], numInRow, pos);
    ExtendText(html, TableOpen, RenderAll(GridFragments(charms[..pos], numInRow, 0)),
               RenderAll(GridFragments(charms[..pos + 1], numInRow, 0)), "", CardCell(charms[pos]));
  }

  lemma TableText(charms: seq<string>, numInRow: int)
    requires charms != [] ==> numInRow != 0
    ensures HtmlRows(charms, numInRow) ==
            TableOpen + RenderAll(GridFragments(charms, numInRow, 0)) + TableClose
  {
    var grid := GridFragments(charms, numInRow, 0);
    RenderAllAppend([Markup(TableOpen)], grid);
    RenderAllAppend([Markup(TableOpen)] + grid, [Markup(TableClose)]);
  }

  /** `processHtmlRows`: the table text built cell by cell with a position counter. */
  method ProcessHtmlRows(charms: seq<string>, numInRow: int) returns (html: string)
    requires charms != [] ==> numInRow != 0
    ensures html == HtmlRows(charms, numInRow)
  {
    var pos := 0;
    html := TableOpen;
    while pos < |charms|
      invariant 0 <= pos <= |charms|
      invariant html == TableOpen + RenderAll(GridFragments(charms[..pos], numInRow, 0))
    {
      var charm := charms[pos];
      if pos % numInRow == 0 {
        AppendFirstCell(charms, numInRow, pos, html);
        html := html + RowBreakMarkup;
      } else {
        AppendNextCell(charms, numInRow, pos, html);
      }
      html := html + CardCell(charm);
      pos := pos + 1;
    }
    assert charms[..pos] == charms;
    html := html + TableClose;
    TableText(charms, numInRow);
  }

  /** An empty list still yields a table, with a single empty row. */
  lemma EmptyTable(numInRow: int)
    ensures HtmlRows([], numInRow) == "<table><tr>\n</tr></table>\n"
  {
    TableText([], numInRow);
  }

  lemma CellContents(charmId: string, numInRow: int, pos: nat)
    requires numInRow != 0
    ensures Cards(Cell(charmId, numInRow, pos)) == [charmId]
    ensures Markups(Cell(charmId, numInRow, pos)) == []
  {
    var cell := Cell(charmId, numInRow, pos);
    if pos % numInRow == 0 {
      assert cell == [RowBreak, Card(charmId)];
      assert cell[1..] == [Card(charmId)] && cell[1..][1..] == [];
      assert Cards(cell[1..]) == [charmId] + Cards([]);
      assert Markups(cell[1..]) == [] + Markups([]);
    } else {
      assert cell == [Card(charmId)] && cell[1..] == [];
      assert Cards(cell) == [charmId] + Cards([]);
      assert Markups(cell) == [] + Markups([]);
    }
  }

  /** The grid holds one card per charm, in the order given. */
  lemma {:induction false} GridCards(charms: seq<string>, numInRow: int, pos: nat)
    requires charms != [] ==> numInRow != 0
    ensures Cards(GridFragments(charms, numInRow, pos)) == charms
    ensures Markups(GridFragments(charms, numInRow, pos)) == []
  {
    if charms != [] {
      var cell, rest := Cell(charms[0], numInRow, pos), GridFragments(charms[1..], numInRow, pos + 1);
      GridCards(charms[1..], numInRow, pos + 1);
      CellContents(charms[0], numInRow, pos);
      CardsAppend(cell, rest);
      MarkupsAppend(cell, rest);
      assert charms == [charms[0]] + charms[1..];
    }
  }


  // -- rows ----------------------------------------------------------------

  /** `charms` cut into consecutive rows of `n`, the last one possibly shorter. */
  function Chunks(charms: seq<string>, n: int): seq<seq<string>>
    requires n > 0
    decreases |charms|
  {
    if charms == [] then []
    else if |charms| <= n then [charms]
    else [charms[..n]] + Chunks(charms[n..], n)
  }

  function CardFragments(row: seq<string>): seq<Fragment>
  {
    if row == [] then [] else [Card(row[0])] + CardFragments(row[1..])
  }

  /** A grid drawn row by row: a row break, then the row's cards. */
  function RowsFragments(rows: seq<seq<string>>): seq<Fragment>
  {
    if rows == [] then [] else [RowBreak] + CardFragments(rows[0]) + RowsFragments(rows[1..])
  }

  lemma MulAtLeast(k: int, n: int)
    requires k >= 1 && n > 0
    ensures k * n >= n
  {
  }

  /** Euclidean division has exactly one quotient and remainder. */
  lemma DivModUnique(a: int, n: int, q: int, r: int)
    requires n > 0 && 0 <= r < n && a == q * n + r
    ensures a / n == q && a % n == r
  {
    var q', r' := a / n, a % n;
    assert a == q' * n + r';
    assert (q - q') * n == r' - r;
    if q > q' {
      MulAtLeast(q - q', n);
    } else if q' > q {
      MulAtLeast(q' - q, n);
    }
  }

  /** Inside one row no further break is emitted. */
  lemma {:induction false} GridWithinRow(row: seq<string>, n: int, pos: nat, start: nat)
    requires n > 0 && start % n == 0 && start < pos && pos - start + |row| <= n
    ensures GridFragments(row, n, pos) == CardFragments(row)
  {
    if row != [] {
      DivModUnique(pos, n, start / n, pos - start);
      GridWithinRow(row[1..], n, pos + 1, start);
    }
  }

  /** A row that starts at a multiple of `n` and fits in it: one break, then its cards. */
  lemma GridOfRow(row: seq<string>, n: int, pos: nat)
    requires n > 0 && pos % n == 0 && 1 <= |row| <= n
    ensures GridFragments(row, n, pos) == [RowBreak] + CardFragments(row)
  {
    GridWithinRow(row[1..], n, pos + 1, pos);
    assert Cell(row[0], n, pos) == [RowBreak] + [Card(row[0])];
    assert CardFragments(row) == [Card(row[0])] + CardFragments(row[1..]);
  }

  /** From the start of a row on, the grid is the rows of `Chunks`, each opened by a break. */
  lemma {:induction false} GridIsRows(charms: seq<string>, n: int, pos: nat)
    requires n > 0 && pos % n == 0
    ensures GridFragments(charms, n, pos) == RowsFragments(Chunks(charms, n))
    decreases |charms|
  {
    if charms != [] {
      if |charms| <= n {
        GridOfRow(charms, n, pos);
        assert RowsFragments([charms]) == [RowBreak] + CardFragments(charms) + RowsFragments([]);
      } else {
        var row, rest := charms[..n], charms[n..];
        assert charms == row + rest;
        GridSplit(row, rest, n, pos);
        GridOfRow(row, n, pos);
        DivModUnique(pos + n, n, pos / n + 1, 0);
        GridIsRows(rest, n, pos + n);
        assert Chunks(charms, n) == [row] + Chunks(rest, n);
        assert Chunks(charms, n)[1..] == Chunks(rest, n);
      }
    }
  }

  lemma {:induction false} GridSplit(a: seq<string>, b: seq<string>, n: int, pos: nat)
    requires n != 0
    ensures GridFragments(a + b, n, pos) == GridFragments(a, n, pos) + GridFragments(b, n, pos + |a|)
  {
    if a == [] {
      assert a + b == b;
    } else {
      assert (a + b)[1..] == a[1..] + b;
      GridSplit(a[1..], b, n, pos + 1);
    }
  }

  /** There are ⌈|charms| / n⌉ rows. */
  lemma {:induction false} ChunksCount(charms: seq<string>, n: int)
    requires n > 0
    ensures |Chunks(charms, n)| == (|charms| + n - 1) / n
    decreases |charms|
  {
    if charms == [] {
      DivModUnique(n - 1, n, 0, n - 1);
    } else if |charms| <= n {
      DivModUnique(|charms| + n - 1, n, 1, |charms| - 1);
    } else {
      var rest := charms[n..];
      ChunksCount(rest, n);
      var k, r := (|rest| + n - 1) / n, (|rest| + n - 1) % n;
      DivModUnique(|rest| + n - 1, n, k, r);
      DivModUnique(|charms| + n - 1, n, k + 1, r);
    }
  }

  /** Every row but the last holds `n` cards, the last between 1 and `n`. */
  lemma {:induction false} ChunksSizes(charms: seq<string>, n: int)
    requires n > 0
    ensures var rows := Chunks(charms, n);
      && (forall i :: 0 <= i < |rows| - 1 ==> |rows[i]| == n)
      && (rows != [] ==> 1 <= |rows[|rows| - 1]| <= n)
    decreases |charms|
  {
    if |charms| > n {
      var rest := charms[n..];
      ChunksSizes(rest, n);
      var rows := Chunks(charms, n);
      assert rows == [charms[..n]] + Chunks(rest, n);
    }
  }

  /** The rows, one after the other, are the charms. */
  lemma {:induction false} ChunksFlatten(charms: seq<string>, n: int)
    requires n > 0
    ensures Flatten(Chunks(charms, n)) == charms
    decreases |charms|
  {
    if charms != [] && |charms| <= n {
      assert Flatten([charms]) == charms + Flatten([]);
    } else if charms != [] {
      var rest := charms[n..];
      ChunksFlatten(rest, n);
      var rows := Chunks(charms, n);
      assert rows == [charms[..n]] + Chunks(rest, n);
      assert rows[1..] == Chunks(rest, n);
      assert charms == charms[..n] + rest;
    }
  }

  /** Every row but the last is full; the last holds between 1 and `n` cards; together they are `charms`. */
  lemma ChunksShape(charms: seq<string>, n: int)
    requires n > 0
    ensures var rows := Chunks(charms, n);
      && |rows| == (|charms| + n - 1) / n
      && (forall i :: 0 <= i < |rows| - 1 ==> |rows[i]| == n)
      && (rows != [] ==> 1 <= |rows[|rows| - 1]| <= n)
      && Flatten(rows) == charms
  {
    ChunksCount(charms, n);
    ChunksSizes(charms, n);
    ChunksFlatten(charms, n);
  }

  function Flatten(rows: seq<seq<string>>): seq<string>
  {
    if rows == [] then [] else rows[0] + Flatten(rows[1..])
  }

  lemma {:induction false} RowsBreakCount(rows: seq<seq<string>>)
    ensures RowBreakCount(RowsFragments(rows)) == |rows|
  {
    if rows != [] {
      RowsBreakCount(rows[1..]);
      CardFragmentsHaveNoBreak(rows[0]);
      RowBreakCountAppend([RowBreak], CardFragments(rows[0]));
      RowBreakCountAppend([RowBreak] + CardFragments(rows[0]), RowsFragments(rows[1..]));
    }
  }

  lemma {:induction false} CardFragmentsHaveNoBreak(row: seq<string>)
    ensures RowBreakCount(CardFragments(row)) == 0
  {
    if row != [] {
      CardFragmentsHaveNoBreak(row[1..]);
      RowBreakCountAppend([Card(row[0])], CardFragments(row[1..]));
    }
  }

  /**
   * For `n > 0` the grid is the cards cut into rows of `n`, each row opened
   * by one `</tr><tr>`; so there are ⌈|charms| / n⌉ row breaks.
   */
  lemma GridRows(charms: seq<string>, n: int)
    requires n > 0
    ensures GridFragments(charms, n, 0) == RowsFragments(Chunks(charms, n))
    ensures RowBreakCount(GridFragments(charms, n, 0)) == (|charms| + n - 1) / n
  {
    GridIsRows(charms, n, 0);
    ChunksShape(charms, n);
    RowsBreakCount(Chunks(charms, n));
  }

  /** Nine cards four to a row make rows of 4, 4 and 1. */
  lemma NineCardsFourToARow(charms: seq<string>)
    requires |charms| == 9
    ensures |Chunks(charms, 4)| == 3
    ensures |Chunks(charms, 4)[0]| == 4 && |Chunks(charms, 4)[1]| == 4 && |Chunks(charms, 4)[2]| == 1
  {
    var r1, r2 := charms[4..], charms[4..][4..];
    assert Chunks(charms, 4) == [charms[..4]] + Chunks(r1, 4);
    assert Chunks(r1, 4) == [r1[..4]] + Chunks(r2, 4);
    assert Chunks(r2, 4) == [r2];
  }

  // ---------------------------------------------------------------------
  // generateHtml
  // ---------------------------------------------------------------------

  /** A heading followed by the table of its charms. */
  function Section(title: string, charms: seq<string>): seq<Fragment>
  {
    [Markup(title)] + TableFragments(charms, DefaultRowWidth)
  }

  function ReportFragments(newPromulgated: seq<string>, newCommunity: seq<string>,
                           updatedPromulgated: seq<string>, updatedCommunity: seq<string>,
                           date: string): seq<Fragment>
  {
    [Markup(PageOpen), Markup(CardsScript), Markup(DateHeading(date))] +
    Section(NewPromulgatedTitle, newPromulgated) +
    Section(NewCommunityTitle, newCommunity) +
    Section(UpdatedPromulgatedTitle, updatedPromulgated) +
    Section(UpdatedCommunityTitle, updatedCommunity) +
    [Markup(PageClose)]
  }

  /** The page `generateHtml` returns. */
  function Html(newPromulgated: seq<string>, newCommunity: seq<string>,
                updatedPromulgated: seq<string>, updatedCommunity: seq<string>,
                date: string): string
  {
    RenderAll(ReportFragments(newPromulgated, newCommunity, updatedPromulgated, updatedCommunity, date))
  }

  lemma RenderSection(title: string, charms: seq<string>)
    ensures RenderAll(Section(title, charms)) == title + HtmlRows(charms, DefaultRowWidth)
  {
    RenderAllAppend([Markup(title)], TableFragments(charms, DefaultRowWidth));
  }

  /** `generateHtml`: the page built by appending its parts in turn. */
  method GenerateHtml(newPromulgated: seq<string>, newCommunity: seq<string>,
                      updatedPromulgated: seq<string>, updatedCommunity: seq<string>,
                      date: string) returns (html: string)
    ensures html == Html(newPromulgated, newCommunity, updatedPromulgated, updatedCommunity, date)
  {
    html := PageOpen;
    html := html + CardsScript;
    html := html + DateHeading(date);
    html := html + NewPromulgatedTitle;
    var rows := ProcessHtmlRows(newPromulgated, DefaultRowWidth);
    html := html + rows;

    html := html + NewCommunityTitle;
    rows := ProcessHtmlRows(newCommunity, DefaultRowWidth);
    html := html + rows;

    html := html + UpdatedPromulgatedTitle;
    rows := ProcessHtmlRows(updatedPromulgated, DefaultRowWidth);
    html := html + rows;

    html := html + UpdatedCommunityTitle;
    rows := ProcessHtmlRows(updatedCommunity, DefaultRowWidth);
    html := html + rows;

    html := html + PageClose;
    RenderReport(newPromulgated, newCommunity, updatedPromulgated, updatedCommunity, date);
  }

  lemma {:induction false} RenderSix(a: seq<Fragment>, b: seq<Fragment>, c: seq<Fragment>,
                                     d: seq<Fragment>, e: seq<Fragment>, f: seq<Fragment>)
    ensures RenderAll(a + b + c + d + e + f) ==
            RenderAll(a) + RenderAll(b) + RenderAll(c) + RenderAll(d) + RenderAll(e) + RenderAll(f)
  {
    RenderAllAppend(a, b);
    RenderAllAppend(a + b, c);
    RenderAllAppend(a + b + c, d);
    RenderAllAppend(a + b + c + d, e);
    RenderAllAppend(a + b + c + d + e, f);
  }

  lemma RenderPreamble(date: string)
    ensures RenderAll([Markup(PageOpen), Markup(CardsScript), Markup(DateHeading(date))]) ==
            PageOpen + CardsScript + DateHeading(date)
  {
    var head := [Markup(PageOpen), Markup(CardsScript), Markup(DateHeading(date))];
    var tail := [Markup(DateHeading(date))];
    assert head[1..] == [Markup(CardsScript)] + tail;
    assert head[1..][1..] == tail;
    assert tail[1..] == [];
    assert RenderAll(tail) == DateHeading(date) + RenderAll([]);
    assert RenderAll(head[1..]) == CardsScript + RenderAll(tail);
  }

  lemma Regroup(head: string, t1: string, r1: string, t2: string, r2: string,
                t3: string, r3: string, t4: string, r4: string, close: string)
    ensures head + (t1 + r1) + (t2 + r2) + (t3 + r3) + (t4 + r4) + close ==
            head + t1 + r1 + t2 + r2 + t3 + r3 + t4 + r4 + close
  {
  }

  lemma RenderReport(np: seq<string>, nc: seq<string>, up: seq<string>, uc: seq<string>, date: string)
    ensures Html(np, nc, up, uc, date) ==
            PageOpen + CardsScript + DateHeading(date) +
            NewPromulgatedTitle + HtmlRows(np, DefaultRowWidth) +
            NewCommunityTitle + HtmlRows(nc, DefaultRowWidth) +
            UpdatedPromulgatedTitle + HtmlRows(up, DefaultRowWidth) +
            UpdatedCommunityTitle + HtmlRows(uc, DefaultRowWidth) +
            PageClose
  {
    RenderPreamble(date);
    RenderSection(NewPromulgatedTitle, np);
    RenderSection(NewCommunityTitle, nc);
    RenderSection(UpdatedPromulgatedTitle, up);
    RenderSection(UpdatedCommunityTitle, uc);
    RenderSix([Markup(PageOpen), Markup(CardsScript), Markup(DateHeading(date))],
              Section(NewPromulgatedTitle, np), Section(NewCommunityTitle, nc),
              Section(UpdatedPromulgatedTitle, up), Section(UpdatedCommunityTitle, uc), [Markup(PageClose)]);
    Regroup(PageOpen + CardsScript + DateHeading(date),
            NewPromulgatedTitle, HtmlRows(np, DefaultRowWidth),
            NewCommunityTitle, HtmlRows(nc, DefaultRowWidth),
            UpdatedPromulgatedTitle, HtmlRows(up, DefaultRowWidth),
            UpdatedCommunityTitle, HtmlRows(uc, DefaultRowWidth), PageClose);
  }

  // -- what the page holds -------------------------------------------------

  lemma {:induction false} CardsSix(a: seq<Fragment>, b: seq<Fragment>, c: seq<Fragment>,
                                    d: seq<Fragment>, e: seq<Fragment>, f: seq<Fragment>)
    ensures Cards(a + b + c + d + e + f) ==
            Cards(a) + Cards(b) + Cards(c) + Cards(d) + Cards(e) + Cards(f)
  {
    CardsAppend(a, b);
    CardsAppend(a + b, c);
    CardsAppend(a + b + c, d);
    CardsAppend(a + b + c + d, e);
    CardsAppend(a + b + c + d + e, f);
  }

  lemma {:induction false} MarkupsSix(a: seq<Fragment>, b: seq<Fragment>, c: seq<Fragment>,
                                      d: seq<Fragment>, e: seq<Fragment>, f: seq<Fragment>)
    ensures Markups(a + b + c + d + e + f) ==
            Markups(a) + Markups(b) + Markups(c) + Markups(d) + Markups(e) + Markups(f)
  {
    MarkupsAppend(a, b);
    MarkupsAppend(a + b, c);
    MarkupsAppend(a + b + c, d);
    MarkupsAppend(a + b + c + d, e);
    MarkupsAppend(a + b + c + d + e, f);
  }

  /** A section holds the cards of its charms, in order, between its heading and the table tags. */
  lemma SectionContents(title: string, charms: seq<string>)
    ensures Cards(Section(title, charms)) == charms
    ensures Markups(Section(title, charms)) == [title, TableOpen, TableClose]
  {
    var grid := GridFragments(charms, DefaultRowWidth, 0);
    GridCards(charms, DefaultRowWidth, 0);
    assert Section(title, charms) == [Markup(title), Markup(TableOpen)] + grid + [Markup(TableClose)];
    CardsAppend([Markup(title), Markup(TableOpen)], grid);
    CardsAppend([Markup(title), Markup(TableOpen)] + grid, [Markup(TableClose)]);
    MarkupsAppend([Markup(title), Markup(TableOpen)], grid);
    MarkupsAppend([Markup(title), Markup(TableOpen)] + grid, [Markup(TableClose)]);
    assert [Markup(title), Markup(TableOpen)][1..] == [Markup(TableOpen)];
    assert [Markup(TableClose)][1..] == [];
  }

  lemma PreambleContents(date: string)
    ensures Cards([Markup(PageOpen), Markup(CardsScript), Markup(DateHeading(date))]) == []
    ensures Markups([Markup(PageOpen), Markup(CardsScript), Markup(DateHeading(date))]) ==
            [PageOpen, CardsScript, DateHeading(date)]
  {
    var head := [Markup(PageOpen), Markup(CardsScript), Markup(DateHeading(date))];
    assert head[1..] == [Markup(CardsScript), Markup(DateHeading(date))];
    assert head[1..][1..] == [Markup(DateHeading(date))];
    assert head[1..][1..][1..] == [];
    assert Cards(head[1..][1..]) == [] + Cards([]);
    assert Cards(head[1..]) == [] + Cards(head[1..][1..]);
    assert Markups(head[1..][1..]) == [DateHeading(date)] + Markups([]);
    assert Markups(head[1..]) == [CardsScript] + Markups(head[1..][1..]);
  }

  /**
   * The page shows exactly the four lists' cards, new recommended first,
   * then new community, updated recommended and updated community, each in
   * the order it was given.
   */
  lemma ReportCards(np: seq<string>, nc: seq<string>, up: seq<string>, uc: seq<string>, date: string)
    ensures Cards(ReportFragments(np, nc, up, uc, date)) == np + nc + up + uc
  {
    PreambleContents(date);
    SectionContents(NewPromulgatedTitle, np);
    SectionContents(NewCommunityTitle, nc);
    SectionContents(UpdatedPromulgatedTitle, up);
    SectionContents(UpdatedCommunityTitle, uc);
    assert [Markup(PageClose)][1..] == [];
    CardsSix([Markup(PageOpen), Markup(CardsScript), Markup(DateHeading(date))],
             Section(NewPromulgatedTitle, np), Section(NewCommunityTitle, nc),
             Section(UpdatedPromulgatedTitle, up), Section(UpdatedCommunityTitle, uc), [Markup(PageClose)]);
  }

  /**
   * Everything on the page other than cards and row breaks is fixed
   * markup that depends on the date alone: the four headings in their
   * order, each followed by one table.
   */
  lemma ReportSkeleton(np: seq<string>, nc: seq<string>, up: seq<string>, uc: seq<string>, date: string)
    ensures Markups(ReportFragments(np, nc, up, uc, date)) ==
            [PageOpen, CardsScript, DateHeading(date),
             NewPromulgatedTitle, TableOpen, TableClose,
             NewCommunityTitle, TableOpen, TableClose,
             UpdatedPromulgatedTitle, TableOpen, TableClose,
             UpdatedCommunityTitle, TableOpen, TableClose,
             PageClose]
  {
    PreambleContents(date);
    SectionContents(NewPromulgatedTitle, np);
    SectionContents(NewCommunityTitle, nc);
    SectionContents(UpdatedPromulgatedTitle, up);
    SectionContents(UpdatedCommunityTitle, uc);
    assert [Markup(PageClose)][1..] == [];
    MarkupsSix([Markup(PageOpen), Markup(CardsScript), Markup(DateHeading(date))],
               Section(NewPromulgatedTitle, np), Section(NewCommunityTitle, nc),
               Section(UpdatedPromulgatedTitle, up), Section(UpdatedCommunityTitle, uc), [Markup(PageClose)]);
  }

  /** Each table opens one row per `n` cards, rounding up. */
  lemma TableRowBreaks(charms: seq<string>, n: int)
    requires n > 0
    ensures RowBreakCount(TableFragments(charms, n)) == (|charms| + n - 1) / n
  {
    GridRows(charms, n);
    RowBreakCountAppend([Markup(TableOpen)], GridFragments(charms, n, 0));
    RowBreakCountAppend([Markup(TableOpen)] + GridFragments(charms, n, 0), [Markup(TableClose)]);
  }
}
