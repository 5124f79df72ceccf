/**
 * What the booklet layout guarantees: pages come in A/B pairs over the same block
 * of deck indices, an A page lists its block in reading order, a B page swaps the
 * two cells of every row, every deck index is shown exactly once on each side, and
 * every cell shows the right word (or the blank) with a label naming its index.
 */
module BookletProperties {
  import opened Wrappers
  import opened Text
  import opened Pagination

  /** The deck indices shown on a page. */
  function IndexSet(page: Page): set<nat>
  {
    set k | 0 <= k < |page.cells| :: page.cells[k].index
  }

  /** The position of the cell that sits beside position `k` in the same row. */
  function Mirror(k: nat): nat
  {
    if k % 2 == 0 then k + 1 else k - 1
  }

  /** Every cell (page, position) of `pages` on `side` that shows deck index `i`. */
  function Occurrences(pages: seq<Page>, side: Side, i: nat): set<(nat, nat)>
  {
    set p: nat, k: nat | p < |pages| && k < |pages[p].cells| && pages[p].side == side && pages[p].cells[k].index == i
      :: (p, k)
  }

  // ---------------------------------------------------------------------------
  // One block
  // ---------------------------------------------------------------------------

  /** Cell `k` of an A page sits at row `k / 2`, column `k % 2` and shows index `cmr + k`. */
  lemma FrontCellAt(column: seq<string>, cmr: nat, rows: nat, number: nat, blank: string, k: nat)
    requires k < Cols * rows
    ensures var c := FrontPage(column, cmr, rows, number, blank).cells[k];
      c.row == k / 2 && c.row < rows && c.col == k % 2 && c.index == cmr + k
  {
    assert FrontPage(column, cmr, rows, number, blank).cells[k] == FrontCell(column, cmr, k, blank);
  }

  /** Cell `k` of a B page sits at row `k / 2`, column `k % 2` and shows index `cmr + Mirror(k)`. */
  lemma BackCellAt(column: seq<string>, cmr: nat, rows: nat, number: nat, blank: string, k: nat)
    requires k < Cols * rows
    ensures var c := BackPage(column, cmr, rows, number, blank).cells[k];
      c.row == k / 2 && c.row < rows && c.col == k % 2 && c.index == cmr + Mirror(k)
  {
    assert BackPage(column, cmr, rows, number, blank).cells[k] == BackCell(column, cmr, k, blank);
  }

  /**
   * An A page of the block at `cmr` holds `tcpp` cells, the k-th at row `k / 2`,
   * column `k % 2`, showing index `cmr + k`: the block `cmr .. cmr + tcpp - 1` in
   * reading order, each index exactly once.
   */
  lemma FrontPageRowMajor(column: seq<string>, cmr: nat, rows: nat, number: nat, blank: string)
    ensures var page := FrontPage(column, cmr, rows, number, blank);
      && page.side == A && |page.cells| == Cols * rows
      && (forall k :: 0 <= k < |page.cells| ==>
            && page.cells[k].row == k / Cols && page.cells[k].row < rows
            && page.cells[k].col == k % Cols
            && page.cells[k].index == cmr + k)
      && (forall k1, k2 :: 0 <= k1 < k2 < |page.cells| ==> page.cells[k1].index != page.cells[k2].index)
      && (forall i :: i in IndexSet(page) <==> cmr <= i < cmr + Cols * rows)
  {
    var page := FrontPage(column, cmr, rows, number, blank);
    forall k | 0 <= k < |page.cells|
      ensures page.cells[k].row == k / Cols && page.cells[k].row < rows
      ensures page.cells[k].col == k % Cols && page.cells[k].index == cmr + k
    {
      FrontCellAt(column, cmr, rows, number, blank, k);
    }
    forall i | cmr <= i < cmr + Cols * rows
      ensures i in IndexSet(page)
    {
      assert page.cells[i - cmr].index == i;
    }
  }

  /**
   * A B page of the block at `cmr`: in row `r` the left cell shows `cmr + 2r + 1`
   * and the right cell `cmr + 2r`.
   */
  lemma BackPageRowsSwapped(column: seq<string>, cmr: nat, rows: nat, number: nat, blank: string)
    ensures var page := BackPage(column, cmr, rows, number, blank);
      && page.side == B && |page.cells| == Cols * rows
      && (forall r :: 0 <= r < rows ==>
            && page.cells[2 * r].row == r && page.cells[2 * r].col == 0
            && page.cells[2 * r].index == cmr + 2 * r + 1
            && page.cells[2 * r + 1].row == r && page.cells[2 * r + 1].col == 1
            && page.cells[2 * r + 1].index == cmr + 2 * r)
  {
    var page := BackPage(column, cmr, rows, number, blank);
    forall r | 0 <= r < rows
      ensures page.cells[2 * r].row == r && page.cells[2 * r].col == 0
      ensures page.cells[2 * r].index == cmr + 2 * r + 1
      ensures page.cells[2 * r + 1].row == r && page.cells[2 * r + 1].col == 1
      ensures page.cells[2 * r + 1].index == cmr + 2 * r
    {
      BackCellAt(column, cmr, rows, number, blank, 2 * r);
      BackCellAt(column, cmr, rows, number, blank, 2 * r + 1);
    }
  }

  /**
   * The B page mirrors the A page: its cell in column `c` of a row shows the index
   * the A page shows in column `cols - 1 - c` of the same row.
   */
  lemma BackPageMirrorsFront(columnA: seq<string>, columnB: seq<string>, cmr: nat, rows: nat, number: nat, blank: string)
    ensures var back := BackPage(columnB, cmr, rows, number + 1, blank);
      var front := FrontPage(columnA, cmr, rows, number, blank);
      && |back.cells| == |front.cells| == Cols * rows
      && (forall k :: 0 <= k < |back.cells| ==>
            && back.cells[k].row == front.cells[k].row
            && back.cells[k].col == front.cells[k].col < Cols
            && Mirror(k) < |front.cells|
            && back.cells[k].index == cmr + Mirror(k) == front.cells[Mirror(k)].index
            && back.cells[k].index == FrontIndex(cmr, back.cells[k].row, Cols - 1 - back.cells[k].col))
  {
    var back := BackPage(columnB, cmr, rows, number + 1, blank);
    var front := FrontPage(columnA, cmr, rows, number, blank);
    forall k | 0 <= k < |back.cells|
      ensures back.cells[k].row == front.cells[k].row
      ensures back.cells[k].col == front.cells[k].col < Cols
      ensures Mirror(k) < |front.cells|
      ensures back.cells[k].index == cmr + Mirror(k) == front.cells[Mirror(k)].index
      ensures back.cells[k].index == FrontIndex(cmr, back.cells[k].row, Cols - 1 - back.cells[k].col)
    {
      BackCellAt(columnB, cmr, rows, number + 1, blank, k);
      FrontCellAt(columnA, cmr, rows, number, blank, k);
      FrontCellAt(columnA, cmr, rows, number, blank, Mirror(k));
    }
  }

  /** Distinct positions have distinct row neighbours. */
  lemma MirrorInjective(k1: nat, k2: nat)
    requires k1 != k2
    ensures Mirror(k1) != Mirror(k2)
  {
  }

  /** A B page shows the block `cmr .. cmr + tcpp - 1`, each index exactly once, like the A page. */
  lemma BackPageCoversBlock(column: seq<string>, cmr: nat, rows: nat, number: nat, blank: string)
    ensures var page := BackPage(column, cmr, rows, number, blank);
      && (forall k1, k2 :: 0 <= k1 < k2 < |page.cells| ==> page.cells[k1].index != page.cells[k2].index)
      && (forall i :: i in IndexSet(page) <==> cmr <= i < cmr + Cols * rows)
  {
    var page := BackPage(column, cmr, rows, number, blank);
    forall k | 0 <= k < |page.cells|
      ensures page.cells[k].index == cmr + Mirror(k) < cmr + Cols * rows
    {
      BackCellAt(column, cmr, rows, number, blank, k);
      MirrorInGrid(k, rows);
    }
    forall k1, k2 | 0 <= k1 < k2 < |page.cells|
      ensures page.cells[k1].index != page.cells[k2].index
    {
      MirrorInjective(k1, k2);
    }
    forall i | cmr <= i < cmr + Cols * rows
      ensures i in IndexSet(page)
    {
      var k := Mirror(i - cmr);
      MirrorInGrid(i - cmr, rows);
      assert page.cells[k].index == i;
    }
  }

  // ---------------------------------------------------------------------------
  // The whole booklet
  // ---------------------------------------------------------------------------

  /**
   * Pages come in pairs: pages `2b` and `2b + 1` (numbers `2b + 1` and `2b + 2`)
   * are the A and B page of block `b` and show the same indices
   * `b * tcpp .. (b + 1) * tcpp - 1`.
   */
  lemma PagesComeInPairs(columnA: seq<string>, columnB: seq<string>, rows: nat, blank: string, b: nat)
    requires rows >= 1
    requires 2 * b + 1 < |Booklet(columnA, columnB, rows, blank)|
    ensures var pages := Booklet(columnA, columnB, rows, blank);
      && pages[2 * b].side == A && pages[2 * b + 1].side == B
      && pages[2 * b].number == 2 * b + 1 && pages[2 * b + 1].number == 2 * b + 2
      && IndexSet(pages[2 * b]) == IndexSet(pages[2 * b + 1])
      && (forall i :: i in IndexSet(pages[2 * b]) <==> b * (Cols * rows) <= i < b * (Cols * rows) + Cols * rows)
  {
    var pages := Booklet(columnA, columnB, rows, blank);
    var cmr := b * (Cols * rows);
    assert (2 * b) / 2 == b && (2 * b + 1) / 2 == b;
    assert pages[2 * b] == FrontPage(columnA, cmr, rows, 2 * b + 1, blank);
    assert pages[2 * b + 1] == BackPage(columnB, cmr, rows, 2 * b + 2, blank);
    FrontPageRowMajor(columnA, cmr, rows, 2 * b + 1, blank);
    BackPageCoversBlock(columnB, cmr, rows, 2 * b + 2, blank);
  }

  /** Page `p` computed on its own: its side, its size and the index of its cell `k`. */
  lemma BookletPageCellAt(columnA: seq<string>, columnB: seq<string>, rows: nat, blank: string, p: nat, k: nat)
    requires k < Cols * rows
    ensures var page := BookletPage(columnA, columnB, rows, p, blank);
      && |page.cells| == Cols * rows
      && (page.side == A <==> p % 2 == 0)
      && page.cells[k].index == (p / 2) * (Cols * rows) + (if p % 2 == 0 then k else Mirror(k))
  {
    var cmr := (p / 2) * (Cols * rows);
    if p % 2 == 0 {
      FrontCellAt(columnA, cmr, rows, p + 1, blank, k);
    } else {
      BackCellAt(columnB, cmr, rows, p + 1, blank, k);
    }
  }

  /** Position `k` of a row-pair grid and the position beside it are both inside the grid. */
  lemma MirrorInGrid(k: nat, rows: nat)
    requires k < Cols * rows
    ensures Mirror(k) < Cols * rows && Mirror(Mirror(k)) == k
  {
    assert Cols * rows == 2 * rows;
  }

  /**
   * Cell `k` of booklet page `p` shows index `(p / 2) * tcpp + k` on an A page and
   * `(p / 2) * tcpp + Mirror(k)` on a B page; both offsets stay inside the block.
   */
  lemma BookletCellAt(columnA: seq<string>, columnB: seq<string>, rows: nat, blank: string, p: nat, k: nat)
    requires rows >= 1
    requires p < |Booklet(columnA, columnB, rows, blank)|
    requires k < |Booklet(columnA, columnB, rows, blank)[p].cells|
    ensures var page := Booklet(columnA, columnB, rows, blank)[p];
      var tcpp := Cols * rows;
      && k < tcpp && Mirror(k) < tcpp && Mirror(Mirror(k)) == k
      && (page.side == A <==> p % 2 == 0)
      && page.cells[k].index == (p / 2) * tcpp + (if p % 2 == 0 then k else Mirror(k))
  {
    var page := Booklet(columnA, columnB, rows, blank)[p];
    assert page == BookletPage(columnA, columnB, rows, p, blank);
    assert |page.cells| == Cols * rows;
    MirrorInGrid(k, rows);
    BookletPageCellAt(columnA, columnB, rows, blank, p, k);
  }

  /** Page `p` shows only indices of its own block, all below `blocks * tcpp`. */
  lemma IndicesWithinBlock(columnA: seq<string>, columnB: seq<string>, rows: nat, blank: string, p: nat, k: nat)
    requires rows >= 1
    requires p < |Booklet(columnA, columnB, rows, blank)|
    requires k < |Booklet(columnA, columnB, rows, blank)[p].cells|
    ensures var pages := Booklet(columnA, columnB, rows, blank);
      var tcpp := Cols * rows;
      && (p / 2) * tcpp <= pages[p].cells[k].index < (p / 2) * tcpp + tcpp
      && pages[p].cells[k].index < |pages| / 2 * tcpp
  {
    var pages := Booklet(columnA, columnB, rows, blank);
    BookletCellAt(columnA, columnB, rows, blank, p, k);
    MulMonotone(p / 2 + 1, |pages| / 2, Cols * rows);
  }

  /** `q * t + r` with `r < t` has quotient `q` and remainder `r`. */
  lemma DivModUnique(q: nat, r: nat, t: nat)
    requires r < t
    ensures (q * t + r) / t == q && (q * t + r) % t == r
  {
    var i := q * t + r;
    var q', r' := i / t, i % t;
    assert q' * t + r' == i;
    if q' < q {
      MulMonotone(q' + 1, q, t);
    } else if q' > q {
      MulMonotone(q + 1, q', t);
    }
  }

  /** A cell showing index `i` lies on a page of block `i / tcpp`, at position `i % tcpp` or its mirror. */
  lemma LocateIndex(columnA: seq<string>, columnB: seq<string>, rows: nat, blank: string, p: nat, k: nat, i: nat)
    requires rows >= 1
    requires p < |Booklet(columnA, columnB, rows, blank)|
    requires k < |Booklet(columnA, columnB, rows, blank)[p].cells|
    requires Booklet(columnA, columnB, rows, blank)[p].cells[k].index == i
    ensures var pages := Booklet(columnA, columnB, rows, blank);
      var tcpp := Cols * rows;
      && i < |pages| / 2 * tcpp
      && p / 2 == i / tcpp
      && (pages[p].side == A ==> p == 2 * (i / tcpp) && k == i % tcpp)
      && (pages[p].side == B ==> p == 2 * (i / tcpp) + 1 && k == Mirror(i % tcpp))
  {
    var tcpp := Cols * rows;
    BookletCellAt(columnA, columnB, rows, blank, p, k);
    IndicesWithinBlock(columnA, columnB, rows, blank, p, k);
    DivModUnique(p / 2, if p % 2 == 0 then k else Mirror(k), tcpp);
  }

  /** Where index `i` is shown on `side`: page `2 (i / tcpp)` or the next one, at `i % tcpp` or its mirror. */
  function HomeCell(side: Side, i: nat, tcpp: nat): (nat, nat)
    requires tcpp >= 1
  {
    match side
    case A => (2 * (i / tcpp), i % tcpp)
    case B => (2 * (i / tcpp) + 1, Mirror(i % tcpp))
  }

  /** Every cell of `side` showing `i` is its home cell, and exists only for `i` inside the booklet's blocks. */
  lemma OnlyHomeCellShowsIndex(columnA: seq<string>, columnB: seq<string>, rows: nat, blank: string, side: Side, i: nat)
    requires rows >= 1
    ensures var pages := Booklet(columnA, columnB, rows, blank);
      forall e :: e in Occurrences(pages, side, i) ==> i < |pages| / 2 * (Cols * rows) && e == HomeCell(side, i, Cols * rows)
  {
    var pages := Booklet(columnA, columnB, rows, blank);
    forall e | e in Occurrences(pages, side, i)
      ensures i < |pages| / 2 * (Cols * rows) && e == HomeCell(side, i, Cols * rows)
    {
      LocateIndex(columnA, columnB, rows, blank, e.0, e.1, i);
    }
  }

  /**
   * The home cell of an index below `blocks * tcpp` lies on one of the first
   * `2 * blocks` pages, inside the grid, on the page of the right side, and the
   * A page-offset (or B page mirror) formula of that position gives back `i`.
   */
  lemma HomeCellArithmetic(side: Side, i: nat, rows: nat, blocks: nat)
    requires rows >= 1 && i < blocks * (Cols * rows)
    ensures var tcpp := Cols * rows;
      var home := HomeCell(side, i, tcpp);
      && home.0 < 2 * blocks && home.1 < tcpp
      && (home.0 % 2 == 0 <==> side == A)
      && (home.0 / 2) * tcpp + (if home.0 % 2 == 0 then home.1 else Mirror(home.1)) == i
  {
    var tcpp := Cols * rows;
    var q, r := i / tcpp, i % tcpp;
    assert q * tcpp + r == i;
    if q >= blocks {
      MulMonotone(blocks, q, tcpp);
    }
    MirrorInGrid(r, rows);
  }

  /** The home cell of an index inside the booklet's blocks does show it. */
  lemma HomeCellShowsIndex(columnA: seq<string>, columnB: seq<string>, rows: nat, blank: string, side: Side, i: nat)
    requires rows >= 1
    requires i < |Booklet(columnA, columnB, rows, blank)| / 2 * (Cols * rows)
    ensures HomeCell(side, i, Cols * rows) in Occurrences(Booklet(columnA, columnB, rows, blank), side, i)
  {
    var pages := Booklet(columnA, columnB, rows, blank);
    var home := HomeCell(side, i, Cols * rows);
    HomeCellArithmetic(side, i, rows, |pages| / 2);
    assert home.0 < |pages|;
    assert |pages[home.0].cells| == Cols * rows by {
      assert pages[home.0] == BookletPage(columnA, columnB, rows, home.0, blank);
    }
    BookletCellAt(columnA, columnB, rows, blank, home.0, home.1);
  }

  /** On one side, index `i` is shown at its home cell if it lies in a block of the booklet, and nowhere otherwise. */
  lemma IndexOnceOnSide(columnA: seq<string>, columnB: seq<string>, rows: nat, blank: string, side: Side, i: nat)
    requires rows >= 1
    ensures var pages := Booklet(columnA, columnB, rows, blank);
      var tcpp := Cols * rows;
      Occurrences(pages, side, i) == if i < |pages| / 2 * tcpp then {HomeCell(side, i, tcpp)} else {}
  {
    var pages := Booklet(columnA, columnB, rows, blank);
    OnlyHomeCellShowsIndex(columnA, columnB, rows, blank, side, i);
    if i < |pages| / 2 * (Cols * rows) {
      HomeCellShowsIndex(columnA, columnB, rows, blank, side, i);
    }
  }

  /**
   * Across the whole booklet every index below `blocks * tcpp` (so every index
   * below `max_words`) is shown on exactly one A cell, position `i % tcpp` of
   * page `2 (i / tcpp)`, and on exactly one B cell, the mirrored position of the
   * following page; no other index is shown at all.
   */
  lemma EveryIndexOnceEachSide(columnA: seq<string>, columnB: seq<string>, rows: nat, blank: string, i: nat)
    requires rows >= 1
    ensures var pages := Booklet(columnA, columnB, rows, blank);
      var tcpp := Cols * rows;
      && MaxWords(columnA, columnB) <= |pages| / 2 * tcpp
      && (i < |pages| / 2 * tcpp ==>
            && Occurrences(pages, A, i) == {(2 * (i / tcpp), i % tcpp)}
            && Occurrences(pages, B, i) == {(2 * (i / tcpp) + 1, Mirror(i % tcpp))})
      && (i >= |pages| / 2 * tcpp ==> Occurrences(pages, A, i) == {} && Occurrences(pages, B, i) == {})
  {
    var pages := Booklet(columnA, columnB, rows, blank);
    BlockCountIsTotalPages(MaxWords(columnA, columnB), Cols * rows, |pages| / 2);
    IndexOnceOnSide(columnA, columnB, rows, blank, A, i);
    IndexOnceOnSide(columnA, columnB, rows, blank, B, i);
  }

  /**
   * Every cell shows its column's word at its index, or the blank when the index
   * is at or past the end of that column, and carries the label `index + 1`
   * followed by its side's letter, which reads back to exactly that index and side.
   */
  lemma CellContents(columnA: seq<string>, columnB: seq<string>, rows: nat, blank: string, p: nat, k: nat)
    requires rows >= 1
    requires p < |Booklet(columnA, columnB, rows, blank)|
    requires k < |Booklet(columnA, columnB, rows, blank)[p].cells|
    ensures var page := Booklet(columnA, columnB, rows, blank)[p];
      var c := page.cells[k];
      var column := if page.side == A then columnA else columnB;
      && (c.index < |column| ==> c.word == column[c.index])
      && (c.index >= |column| ==> c.word == blank)
      && c.coord == NatToString(c.index + 1) + [SideLetter(page.side)]
      && ParseLabel(c.coord) == Some((c.index, page.side))
  {
    var page := Booklet(columnA, columnB, rows, blank)[p];
    var cmr := (p / 2) * (Cols * rows);
    if p % 2 == 0 {
      assert page.cells[k] == FrontCell(columnA, cmr, k, blank);
    } else {
      assert page.cells[k] == BackCell(columnB, cmr, k, blank);
    }
    LabelRoundTrip(page.cells[k].index, page.side);
  }

  /**
   * A deck whose columns both hold a whole number of blocks fills every cell:
   * no cell of the booklet is blank.
   */
  lemma FullBlocksHaveNoBlanks(columnA: seq<string>, columnB: seq<string>, rows: nat, blank: string, blocks: nat, p: nat, k: nat)
    requires rows >= 1
    requires |columnA| == |columnB| == blocks * (Cols * rows)
    requires p < |Booklet(columnA, columnB, rows, blank)|
    requires k < |Booklet(columnA, columnB, rows, blank)[p].cells|
    ensures var page := Booklet(columnA, columnB, rows, blank)[p];
      && page.cells[k].index < |columnA|
      && page.cells[k].word == (if page.side == A then columnA else columnB)[page.cells[k].index]
  {
    var pages := Booklet(columnA, columnB, rows, blank);
    BlockCountIsTotalPages(|columnA|, Cols * rows, blocks);
    IndicesWithinBlock(columnA, columnB, rows, blank, p, k);
    CellContents(columnA, columnB, rows, blank, p, k);
  }
}
