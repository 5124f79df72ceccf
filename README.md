# Flashcard booklet pagination, modelled in Dafny

The flashcard maker (`csvtoflascard8.py`) reads a two-column table: column A holds
the fronts of the cards and column B the backs. It lays the cards out on A6 pages
with a grid 2 cells wide and 5 rows high. Odd pages show column A in reading
order. Even pages show column B with the two cells of every row swapped, so when
the sheet is flipped over its side edge each back lands behind its front. A block
marker `cmr` moves on by `tcpp = cols * rows` words after each even page. For every
cell the code computes a label `"{index + 1}A"` or `"{index + 1}B"` and passes it to
`draw_word_in_cell`, which ignores it and draws only the word; `test_algorithm`
prints it. An index past the end of its column gives an empty word.

This project models the following:

- the pagination loop of `create_pdf` and its duplicate in `test_algorithm`, as
  imperative methods with loop invariants;
- each method is proved equal to a pure page-by-page specification, `Booklet`;
- the layout properties, proved about that specification;
- the header-skip rule and the column extraction of `read_file_data`;
- the `.pdf` suffix rule of `get_pdf_filename`;
- the page-count formula.

Modules:

- `Wrappers` holds `Option`.
- `Text` writes out, over `seq<char>`, the Python string operations the code uses:
  - `strip` with the characters for which `str.isspace` is true;
  - `lower` on ASCII letters;
  - `endswith`;
  - `str(n)` for naturals, with the parser that reads it back.
- `Pagination` holds:
  - the cell and page records;
  - the index formulas, the labels and the page count;
  - the specification `Booklet`;
  - the drawing loops `DrawFrontPage`, `DrawBackPage` and `Paginate`;
  - `CreatePdf` and `TestAlgorithm`.
- `BookletProperties` proves the layout guarantees about `Booklet`:
  - pages come in pairs over one block;
  - an A page lists its block row by row;
  - a B page swaps each row and mirrors the A page;
  - every index is shown exactly once on each side;
  - each cell holds the right word or the blank, with a label that reads back to its index.
- `Input` holds the table reader's rules (header skip, column extraction) and the file-name rule.

A page is a record of its side, its page number and the list of its cells. Each cell
holds the arguments `create_pdf` passes to `draw_word_in_cell` for it: its row, its
column, the word, and the `coord` label, which the drawing ignores. It also holds the
deck index the cell shows. The
grid has `Cols = 2`, as the code hard-codes it (line 102, and the `row * 2` offsets
at lines 144-145). The row count is a parameter of at least 1. `create_pdf` and
`test_algorithm` use 5 rows. `create_pdf` shows `""` past a column's end;
`test_algorithm` shows `"EMPTY"`.

A table cell is one of three values:

- `Str(s)`, a string, which the header test looks at;
- `Other(text)`, any other present value, carrying its `str()` text;
- `Missing`, which `pd.notna` rejects.

A cell past the end of its column still carries its label: `coord` is computed for
every cell, whatever the word is (lines 135, 152, 161).

## Model

| member | source | states |
|---|---|---|
| Pagination.Paginate | csvtoflascard8.py:111-172 | Given the two columns and at least one row, the `while cmr < max_words` loop returns exactly `Booklet`. Odd page numbers yield A pages and even ones B pages. `cmr` moves on only after a B page. The loop stops after `total_pages` pages, so it never stops after an A page. |
| Pagination.DrawFrontPage | csvtoflascard8.py:124-137 | The nested `row`/`col` loops of an odd page produce the A page of `Booklet`: cell `(row, col)` shows `cmr + row*cols + col`, with its column's word or the blank, with the label `index+1` followed by "A". |
| Pagination.DrawBackPage | csvtoflascard8.py:139-163 | The `row` loop of an even page produces the B page of `Booklet`: left cell `cmr + 2row + 1`, then right cell `cmr + 2row`, each with its word or the blank and the label `index+1` followed by "B". |
| Pagination.CreatePdf | csvtoflascard8.py:94-179 | `create_pdf` with 2 x 5 cells and `""` past a column's end yields the booklet of those columns. Its page count equals the `((max_words + 9) // 10) * 2` that the program reports. |
| Pagination.TestAlgorithm | csvtoflascard8.py:296-337 | On its fixed data Word1..Word20 / Back1..Back20, `test_algorithm` yields 4 pages. Page 1 starts Word1 Word2 and ends Word9 Word10. Page 2 starts Back2 Back1, ends Back10 Back9, and is labelled from "2B". Page 3 starts Word11 Word12. Page 4 starts Back12 Back11 and ends with label "19B". |
| Pagination.Booklet | csvtoflascard8.py:112-118 | The booklet has exactly `total_pages` pages, which is an even number. Page `p` has number `p + 1` and is an A page iff that number is odd. |
| Pagination.MaxWords | csvtoflascard8.py:112 | `max_words` is at least the length of each column and equals one of them. |
| Pagination.BlockCountIsTotalPages | csvtoflascard8.py:113 | `total_pages` is even. `total_pages / 2` is the unique block count `n` with `max_words <= n * tcpp` and `(n - 1) * tcpp < max_words` (no empty block): the number of blocks the loop runs. |
| Pagination.LabelRoundTrip | csvtoflascard8.py:135 | A cell label, decimal `index + 1` followed by the side letter, parses back to exactly that index and side. |
| Pagination.LabelInjective | csvtoflascard8.py:152 | Two cells share a label only if they show the same index on the same side. |
| BookletProperties.FrontCellAt | csvtoflascard8.py:126-128 | Cell `k` of an A page lies at row `k / 2`, column `k % 2`, and shows index `cmr + k`. |
| BookletProperties.BackCellAt | csvtoflascard8.py:141-145 | Cell `k` of a B page lies at row `k / 2`, column `k % 2`, and shows `cmr` plus the position beside `k` in its row. |
| BookletProperties.FrontPageRowMajor | csvtoflascard8.py:124-137 | An A page holds `tcpp` cells in row-major order. Cell `k` shows `cmr + k`; no index repeats. Its index set is exactly `[cmr, cmr + tcpp)`. |
| BookletProperties.BackPageRowsSwapped | csvtoflascard8.py:139-163 | On a B page, row `r`'s left cell (column 0) shows `cmr + 2r + 1` and its right cell (column 1) shows `cmr + 2r`. |
| BookletProperties.BackPageMirrorsFront | csvtoflascard8.py:140-145 | The B page of a block has the A page's grid positions. Each B cell shows the index of the A cell beside it in the same row, i.e. the A index at column `cols - 1 - col`. |
| BookletProperties.BackPageCoversBlock | csvtoflascard8.py:139-163 | A B page shows no index twice. Its index set is exactly `[cmr, cmr + tcpp)`, the same as the A page of its block. |
| BookletProperties.PagesComeInPairs | csvtoflascard8.py:168-172 | Pages `2b` and `2b + 1` (numbers `2b + 1` and `2b + 2`) are the A and B page of block `b`. They show the same index set, `[b * tcpp, (b + 1) * tcpp)`. |
| BookletProperties.BookletCellAt | csvtoflascard8.py:124-145 | Cell `k` of booklet page `p` shows `(p / 2) * tcpp + k` on an A page (even `p`) and `(p / 2) * tcpp + Mirror(k)` on a B page. |
| BookletProperties.BookletPageCellAt | csvtoflascard8.py:124-145 | Page `p`, computed from its position alone, has `tcpp` cells. It is an A page iff `p` is even. Its cell `k` shows `(p / 2) * tcpp + k` on an A page and the mirrored offset on a B page. |
| BookletProperties.MirrorInGrid | csvtoflascard8.py:144-145 | The cell beside position `k` in its row is inside the grid, and the cell beside that is `k` again. |
| BookletProperties.IndicesWithinBlock | csvtoflascard8.py:169-170 | Every index on page `p` lies in block `p / 2`, and below the total of all blocks' cells. |
| BookletProperties.LocateIndex | csvtoflascard8.py:118-170 | A cell showing index `i` is on a page of block `i / tcpp`. On the A page it is at position `i % tcpp`; on the B page it is at the mirror of that position. |
| BookletProperties.OnlyHomeCellShowsIndex | csvtoflascard8.py:128 | On one side, each cell showing `i` is that index's home cell, and `i` is inside the booklet's blocks. |
| BookletProperties.HomeCellArithmetic | csvtoflascard8.py:128-145 | The home cell of an index below `blocks * tcpp` is on one of the first `2 * blocks` pages, inside the grid, on a page of its side. The page's index formula at that position gives back the index. |
| BookletProperties.HomeCellShowsIndex | csvtoflascard8.py:144-145 | If index `i` is inside the booklet's blocks, its home cell on each side shows it. |
| BookletProperties.IndexOnceOnSide | csvtoflascard8.py:118-170 | On each side, the set of cells showing index `i` is exactly its home cell when `i` is inside the booklet's blocks, and empty otherwise. |
| BookletProperties.EveryIndexOnceEachSide | csvtoflascard8.py:118-170 | Every index below `max_words` (indeed below `blocks * tcpp`) is shown on exactly one A cell and exactly one B cell, and these cells are named. No larger index is shown. |
| BookletProperties.CellContents | csvtoflascard8.py:130-161 | A cell shows `column[index]` when the index is inside its side's column, and the blank otherwise; it never fails. Its label is the decimal of `index + 1` plus the side letter, and it parses back to that index and side. |
| BookletProperties.FullBlocksHaveNoBlanks | csvtoflascard8.py:130-133 | When both columns hold a whole number of blocks, no cell is blank: every cell shows its column's word. |
| Input.StartRow | csvtoflascard8.py:69 | Row 1 is skipped iff the table has rows, has a first column, and its first cell is a string whose lower-case form is "column a", "a" or "front". A table with rows but no column fails (the first-cell lookup raises and the reader returns `None`). |
| Input.HeaderIgnoresCase | csvtoflascard8.py:69 | The header test gives the same answer for a string and its lower-cased form. |
| Input.CellText | csvtoflascard8.py:75-78 | A missing value adds `""`. A present value adds its stripped `str()` text, which is no longer than that text. |
| Input.CellTextIsStripped | csvtoflascard8.py:76 | Every entry added to a column is free of whitespace at both ends. |
| Input.ReadFileData | csvtoflascard8.py:65-92 | The result is `None` exactly when the table has rows but no column. Otherwise each existing column gets one entry per row from `start_row` on; a column the table lacks stays empty. Entry `i` is the cell text of row `start_row + i`. |
| Input.CollectColumns | csvtoflascard8.py:71-86 | The `for i in range(start_row, len(df))` loop builds column A iff the table has a first column and column B iff it has a second. Each is the sequence of those rows' cell texts, in order. |
| Input.EntriesStep | csvtoflascard8.py:71-86 | One more row appends exactly its cell's text at the end of the column. |
| Input.PdfFileName | csvtoflascard8.py:46-48 | The name is empty iff the result is. A non-empty result ends in ".pdf" and starts with the name. A name already ending in ".pdf" is unchanged; otherwise ".pdf" is the only thing appended. |
| Input.PdfFileNameIdempotent | csvtoflascard8.py:46-48 | Applying the suffix rule twice gives the same name as applying it once. |
| Text.TrimStartSpec | csvtoflascard8.py:76 | The leading-whitespace cut of `strip()` keeps a suffix of the text, removes only whitespace, and leaves no leading whitespace. |
| Text.TrimEndSpec | csvtoflascard8.py:84 | The trailing-whitespace cut of `strip()` keeps a prefix, removes only whitespace, and leaves no trailing whitespace. |
| Text.StripKeepsMiddle | csvtoflascard8.py:76 | `strip()` returns the contiguous middle of the text; only whitespace lies before and after it. |
| Text.StripLeavesNoEdgeSpace | csvtoflascard8.py:84 | The result of `strip()` neither starts nor ends with whitespace. |
| Text.StripIdempotent | csvtoflascard8.py:76 | Stripping a stripped text changes nothing. |
| Text.Lower | csvtoflascard8.py:69 | `lower()` keeps the length, maps each character on its own, and leaves no upper-case ASCII letter. |
| Text.LowerIdempotent | csvtoflascard8.py:69 | Lower-casing twice is lower-casing once. |
| Text.NatToString | csvtoflascard8.py:135 | The decimal rendering in a label is non-empty, made of digits only, and has no leading zero. |
| Text.ParseNatToString | csvtoflascard8.py:152 | Reading the decimal rendering of `n` back gives `n`. |
| Text.NatToStringInjective | csvtoflascard8.py:161 | Distinct numbers render to distinct decimal strings. |

## Left out

- Rendering via ReportLab is not modelled. This covers `canvas.Canvas`, `showPage`, `save`, `draw_word_in_cell` (text wrapping with `simpleSplit` and floating-point placement) and `draw_grid_lines` (lines 98-109, 120, 166, 174, 181-221). It is floating-point geometry inside a foreign library; a page is modelled as the list of cells, each with the arguments its `draw_word_in_cell` call receives.
- The `try`/`except` of `create_pdf` that returns `False` (lines 96, 177-179) is not modelled. The loop itself cannot fail: every index past a column's end gives the blank.
- The font size (`get_fontsize`, `self.fontsize`) is not modelled. It only affects rendering.
- File upload through Colab, `files.download` and the `input()` prompts are I/O. The file name typed at the prompt is a parameter of `PdfFileName`.
- The parse step of `read_file_data`, meaning the choice between `pd.read_csv` and `pd.read_excel` by extension and the "unsupported format" return (lines 54-62), is a foreign library call. The model starts from an already-parsed table.
- pandas' own failures (an unreadable file) are not modelled. The `except` of `read_file_data` is modelled only for the one failure the code itself can cause: reading the first cell of a table with rows but no columns.
- `str(v)` of a non-string value (numbers, dates) is not modelled. It is carried as a text given with the value, because pandas' formatting is outside the model.
- Python's full Unicode case mapping is not modelled: `lower()` is modelled on ASCII letters only. The header decision is the same on every string. The only non-ASCII characters that lower-case to text containing ASCII letters are U+0130 (to "i" plus a combining dot) and U+212A (to "k"), and neither can produce "column a", "a" or "front".
- Console output is not modelled. That means the `print` calls of `create_pdf` (line 122), `show_file_info`, `run`, `main` and `test_algorithm`. `TestAlgorithm` returns the pages whose rows `test_algorithm` prints.
- The control flow of `run` and `main` (lines 241-294 and on), including the early return when both columns are empty, is not modelled. It is orchestration around the modelled operations. An empty deck gives zero pages (`Booklet` has length 0).
- The unused `total_pages` variable of `create_pdf` (line 113) appears only as `TotalPages`. It is proved to equal the number of pages the loop emits.
- The B-page swap is not generalised to more than two columns: the code fixes `cols = 2`. `BookletProperties.BackPageMirrorsFront` states the swap as the full row mirror (`cols - 1 - col`), which is what a wider grid would need.
