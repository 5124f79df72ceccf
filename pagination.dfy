/**
 * The booklet layout of the flashcard maker: a deck held as two columns of words
 * (column A for the fronts, column B for the backs) is laid out on pages of a
 * grid two cells wide. Odd pages show column A in reading order; even pages show
 * column B with the two cells of every row swapped, so that a printed sheet
 * flipped over its side edge puts each back behind its front. A page is the list
 * of its cells, each holding what `create_pdf` passes to `draw_word_in_cell`.
 */
module Pagination {
  import opened Wrappers
  import opened Text

  /** Cells per row. The source fixes it, and the back-page swap depends on it. */
  const Cols: nat := 2
  /** Rows per page, as fixed by `create_pdf` and `test_algorithm`. */
  const Rows: nat := 5

  /** Which column a page shows: A (fronts, odd pages) or B (backs, even pages). */
  datatype Side = A | B

  /**
   * One cell: its grid position, the deck index it shows, the word, and the label
   * `coord` that is passed along with it (the drawing itself ignores the label).
   */
  datatype Cell = Cell(row: nat, col: nat, index: nat, word: string, coord: string)

  /** One page of the booklet, numbered from 1. */
  datatype Page = Page(side: Side, number: nat, cells: seq<Cell>)

  // ---------------------------------------------------------------------------
  // Page count
  // ---------------------------------------------------------------------------

  /** `max_words`: the length of the longer column. */
  function MaxWords(columnA: seq<string>, columnB: seq<string>): (m: nat)
    ensures m >= |columnA| && m >= |columnB|
    ensures m == |columnA| || m == |columnB|
  {
    if |columnA| >= |columnB| then |columnA| else |columnB|
  }

  /** `total_pages`: one page of each side per started block of `tcpp` words. */
  function TotalPages(maxWords: nat, tcpp: nat): nat
    requires tcpp >= 1
  {
    (maxWords + tcpp - 1) / tcpp * 2
  }

  // ---------------------------------------------------------------------------
  // Labels
  // ---------------------------------------------------------------------------

  function SideLetter(side: Side): char
  {
    match side
    case A => 'A'
    case B => 'B'
  }

  /** The label computed for a cell: the 1-based row number of the input table and the side letter. */
  function Label(index: nat, side: Side): (coord: string)
  {
    NatToString(index + 1) + [SideLetter(side)]
  }

  /** Reads a label back into the 0-based index and the side it names. */
  function ParseLabel(coord: string): Option<(nat, Side)>
  {
    if |coord| < 2 then None
    else
      var digits, letter := coord[..|coord| - 1], coord[|coord| - 1];
      if !AllDigits(digits) || !(letter == 'A' || letter == 'B') then None
      else
        var n := ParseNat(digits);
        if n == 0 then None else Some((n - 1, if letter == 'A' then A else B))
  }

  /** A label names exactly the index and side it was made from. */
  lemma LabelRoundTrip(index: nat, side: Side)
    ensures ParseLabel(Label(index, side)) == Some((index, side))
  {
    var coord := Label(index, side);
    assert coord[..|coord| - 1] == NatToString(index + 1);
    ParseNatToString(index + 1);
  }

  /** Distinct cells of the booklet never share a label unless they share index and side. */
  lemma LabelInjective(i: nat, s: Side, j: nat, t: Side)
    requires Label(i, s) == Label(j, t)
    ensures i == j && s == t
  {
    LabelRoundTrip(i, s);
    LabelRoundTrip(j, t);
  }

  // ---------------------------------------------------------------------------
  // Cells of one block
  // ---------------------------------------------------------------------------

  /** The word shown for `index`: the column's entry, or the blank past its end. */
  function WordAt(column: seq<string>, index: nat, blank: string): string
  {
    if index < |column| then column[index] else blank
  }

  /** Deck index of cell (row, col) on the A page of the block starting at `cmr`. */
  function FrontIndex(cmr: nat, row: nat, col: nat): nat
  {
    cmr + row * Cols + col
  }

  /** Deck index of cell (row, col) on the B page: left cell `cmr + 2row + 1`, right cell `cmr + 2row`. */
  function BackIndex(cmr: nat, row: nat, col: nat): nat
  {
    if col == 0 then cmr + row * 2 + 1 else cmr + row * 2
  }

  function MakeCell(column: seq<string>, side: Side, row: nat, col: nat, index: nat, blank: string): Cell
  {
    Cell(row, col, index, WordAt(column, index, blank), Label(index, side))
  }

  /** The k-th cell drawn on an A page (row by row, left to right). */
  function FrontCell(column: seq<string>, cmr: nat, k: nat, blank: string): Cell
  {
    MakeCell(column, A, k / Cols, k % Cols, FrontIndex(cmr, k / Cols, k % Cols), blank)
  }

  /** The k-th cell drawn on a B page (row by row, left cell first). */
  function BackCell(column: seq<string>, cmr: nat, k: nat, blank: string): Cell
  {
    MakeCell(column, B, k / Cols, k % Cols, BackIndex(cmr, k / Cols, k % Cols), blank)
  }

  function FrontPage(column: seq<string>, cmr: nat, rows: nat, number: nat, blank: string): Page
  {
    Page(A, number, seq(Cols * rows, k requires 0 <= k => FrontCell(column, cmr, k, blank)))
  }

  function BackPage(column: seq<string>, cmr: nat, rows: nat, number: nat, blank: string): Page
  {
    Page(B, number, seq(Cols * rows, k requires 0 <= k => BackCell(column, cmr, k, blank)))
  }

  // ---------------------------------------------------------------------------
  // The whole booklet, page by page
  // ---------------------------------------------------------------------------

  /**
   * Page `p` (0-based) of the booklet, computed from its position alone: block
   * `p / 2` starts at deck index `(p / 2) * tcpp`; its A page comes first.
   */
  function BookletPage(columnA: seq<string>, columnB: seq<string>, rows: nat, p: nat, blank: string): Page
  {
    var cmr := (p / 2) * (Cols * rows);
    if p % 2 == 0 then FrontPage(columnA, cmr, rows, p + 1, blank)
    else BackPage(columnB, cmr, rows, p + 1, blank)
  }

  /** The booklet: `total_pages` pages, numbered 1, 2, 3, ..., odd ones A and even ones B. */
  function Booklet(columnA: seq<string>, columnB: seq<string>, rows: nat, blank: string): (pages: seq<Page>)
    requires rows >= 1
    ensures |pages| == TotalPages(MaxWords(columnA, columnB), Cols * rows)
    ensures |pages| % 2 == 0
    ensures forall p :: 0 <= p < |pages| ==>
      pages[p].number == p + 1 && (pages[p].side == A <==> pages[p].number % 2 == 1)
  {
    seq(TotalPages(MaxWords(columnA, columnB), Cols * rows),
        p requires 0 <= p => BookletPage(columnA, columnB, rows, p, blank))
  }

  // ---------------------------------------------------------------------------
  // The drawing loops
  // ---------------------------------------------------------------------------

  /** The `for row` / `for col` loop of an odd page: cell (row, col) shows `cmr + row*cols + col`. */
  method DrawFrontPage(column: seq<string>, cmr: nat, rows: nat, number: nat, blank: string)
    returns (page: Page)
    ensures page == FrontPage(column, cmr, rows, number, blank)
  {
    var cells: seq<Cell> := [];
    for row := 0 to rows
      invariant |cells| == Cols * row
      invariant forall k :: 0 <= k < |cells| ==> cells[k] == FrontCell(column, cmr, k, blank)
    {
      for col := 0 to Cols
        invariant |cells| == Cols * row + col
        invariant forall k :: 0 <= k < |cells| ==> cells[k] == FrontCell(column, cmr, k, blank)
      {
        var dataIndex := cmr + row * Cols + col;
        var word := if dataIndex < |column| then column[dataIndex] else blank;
        var coord := Label(dataIndex, A);
        cells := cells + [Cell(row, col, dataIndex, word, coord)];
      }
    }
    page := Page(A, number, cells);
  }

  /** The `for row` loop of an even page: left cell `cmr + row*2 + 1`, then right cell `cmr + row*2`. */
  method DrawBackPage(column: seq<string>, cmr: nat, rows: nat, number: nat, blank: string)
    returns (page: Page)
    ensures page == BackPage(column, cmr, rows, number, blank)
  {
    var cells: seq<Cell> := [];
    for row := 0 to rows
      invariant |cells| == Cols * row
      invariant forall k :: 0 <= k < |cells| ==> cells[k] == BackCell(column, cmr, k, blank)
    {
      var leftIndex := cmr + row * 2 + 1;
      var rightIndex := cmr + row * 2;
      var wordLeft := if leftIndex < |column| then column[leftIndex] else blank;
      var coordLeft := Label(leftIndex, B);
      cells := cells + [Cell(row, 0, leftIndex, wordLeft, coordLeft)];
      var wordRight := if rightIndex < |column| then column[rightIndex] else blank;
      var coordRight := Label(rightIndex, B);
      cells := cells + [Cell(row, 1, rightIndex, wordRight, coordRight)];
    }
    page := Page(B, number, cells);
  }

  /**
   * The `while cmr < max_words` loop: emits an A page on odd `page_number` and a
   * B page on even ones, and moves `cmr` on by `tcpp` only after a B page.
   * `blank` is the word shown past the end of a column.
   */
  method Paginate(columnA: seq<string>, columnB: seq<string>, rows: nat, blank: string)
    returns (pages: seq<Page>)
    requires rows >= 1
    ensures pages == Booklet(columnA, columnB, rows, blank)
  {
    var tcpp := Cols * rows;
    var maxWords := MaxWords(columnA, columnB);
    var cmr: nat := 0;
    var pageNumber: nat := 1;
    ghost var block: nat := 0;
    pages := [];
    while cmr < maxWords
      invariant cmr == block * tcpp
      invariant pageNumber == |pages| + 1
      invariant pageNumber == 2 * block + 1 || (pageNumber == 2 * block + 2 && cmr < maxWords)
      invariant block == 0 || (block - 1) * tcpp < maxWords
      invariant forall p :: 0 <= p < |pages| ==> pages[p] == BookletPage(columnA, columnB, rows, p, blank)
      decreases maxWords - cmr, pageNumber % 2
    {
      var page: Page;
      if pageNumber % 2 == 1 {
        page := DrawFrontPage(columnA, cmr, rows, pageNumber, blank);
      } else {
        page := DrawBackPage(columnB, cmr, rows, pageNumber, blank);
      }
      pages := pages + [page];
      if pageNumber % 2 == 0 {
        cmr := cmr + tcpp;
        block := block + 1;
      }
      pageNumber := pageNumber + 1;
    }
    BlockCountIsTotalPages(maxWords, tcpp, block);
  }

  /**
   * `create_pdf`: the 2 x 5 booklet with empty cells past the end of a column. Its
   * page count is the `((max_words + 9) // 10) * 2` reported to the user.
   */
  method CreatePdf(columnA: seq<string>, columnB: seq<string>) returns (pages: seq<Page>)
    ensures pages == Booklet(columnA, columnB, Rows, "")
    ensures |pages| == (MaxWords(columnA, columnB) + 9) / 10 * 2
  {
    pages := Paginate(columnA, columnB, Rows, "");
  }

  /** The sample column of `test_algorithm`: `prefix + "1"`, ..., `prefix + "20"`. */
  function SampleColumn(prefix: string): (column: seq<string>)
    ensures |column| == 20
  {
    seq(20, i requires 0 <= i => prefix + NatToString(i + 1))
  }

  /**
   * `test_algorithm`: the same loop over `Word1..Word20` and `Back1..Back20`,
   * showing "EMPTY" past the end of a column. Four pages; the first rows read
   * Word1 Word2 / Back2 Back1 / Word11 Word12 / Back12 Back11.
   */
  method TestAlgorithm() returns (pages: seq<Page>)
    ensures pages == Booklet(SampleColumn("Word"), SampleColumn("Back"), Rows, "EMPTY")
    ensures |pages| == 4
    ensures pages[0].cells[0].word == "Word1" && pages[0].cells[1].word == "Word2"
    ensures pages[0].cells[8].word == "Word9" && pages[0].cells[9].word == "Word10"
    ensures pages[1].cells[0].word == "Back2" && pages[1].cells[1].word == "Back1"
    ensures pages[1].cells[8].word == "Back10" && pages[1].cells[9].word == "Back9"
    ensures pages[2].cells[0].word == "Word11" && pages[2].cells[1].word == "Word12"
    ensures pages[3].cells[0].word == "Back12" && pages[3].cells[1].word == "Back11"
    ensures pages[1].cells[0].coord == "2B" && pages[3].cells[9].coord == "19B"
  {
    pages := Paginate(SampleColumn("Word"), SampleColumn("Back"), Rows, "EMPTY");
  }

  /** `total_pages / 2` is the one block count that covers `maxWords` words without an empty block. */
  lemma BlockCountIsTotalPages(maxWords: nat, tcpp: nat, blocks: nat)
    requires tcpp >= 1
    ensures TotalPages(maxWords, tcpp) % 2 == 0
    ensures blocks == TotalPages(maxWords, tcpp) / 2 <==>
      (maxWords <= blocks * tcpp && (blocks == 0 || (blocks - 1) * tcpp < maxWords))
  {
    var n := (maxWords + tcpp - 1) / tcpp;
    var r := (maxWords + tcpp - 1) % tcpp;
    assert n * tcpp + r == maxWords + tcpp - 1;
    assert TotalPages(maxWords, tcpp) / 2 == n;
    assert n >= 1 ==> (n - 1) * tcpp == n * tcpp - tcpp;
    if maxWords <= blocks * tcpp && (blocks == 0 || (blocks - 1) * tcpp < maxWords) {
      if blocks < n {
        MulMonotone(blocks, n - 1, tcpp);
      } else if blocks > n {
        MulMonotone(n, blocks - 1, tcpp);
      }
    }
  }

  lemma MulMonotone(x: nat, y: nat, t: nat)
    requires x <= y
    ensures x * t <= y * t
  {
    assert y * t == x * t + (y - x) * t;
  }
}
