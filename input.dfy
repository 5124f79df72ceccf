/**
 * What the booklet maker reads before laying out pages: the two columns of the
 * input table (with an optional header row skipped) and the name of the PDF to
 * write. The table arrives already parsed; a cell is a string, some other value
 * together with its `str()` text, or missing.
 */
module Input {
  import opened Wrappers
  import opened Text

  /** One cell of the parsed table. */
  datatype Value = Str(s: string) | Other(text: string) | Missing

  /** A table read without a header: `width` columns, every row exactly that wide. */
  datatype Table = Table(width: nat, rows: seq<seq<Value>>)

  predicate WellFormed(t: Table)
  {
    forall i :: 0 <= i < |t.rows| ==> |t.rows[i]| == t.width
  }

  /** Column A (fronts) and column B (backs). */
  datatype Columns = Columns(a: seq<string>, b: seq<string>)

  /** The first cells, lower-cased, that mark a header row. */
  const HeaderNames: seq<string> := ["column a", "a", "front"]

  /** A first cell marks a header iff it is a string whose lower-case form is a header name. */
  predicate IsHeaderCell(v: Value)
  {
    v.Str? && Lower(v.s) in HeaderNames
  }

  /** `str(v)` for a value that is present. */
  function StrOf(v: Value): string
    requires !v.Missing?
  {
    match v
    case Str(s) => s
    case Other(text) => text
  }

  /** The entry a cell adds to its column: its stripped text, or "" for a missing value. */
  function CellText(v: Value): (entry: string)
    ensures v.Missing? ==> entry == ""
    ensures !v.Missing? ==> |entry| <= |StrOf(v)|
  {
    if v.Missing? then "" else Strip(StrOf(v))
  }

  /**
   * `start_row`: 1 when the table has a row and its first cell is a header, else 0.
   * None when there are rows but no column, where reading the first cell fails
   * and the reader gives up.
   */
  function StartRow(t: Table): (start: Option<nat>)
    requires WellFormed(t)
    ensures start.Some? ==> start.value <= |t.rows|
    ensures start == None <==> |t.rows| > 0 && t.width == 0
    ensures start == Some(1) <==> |t.rows| > 0 && t.width > 0 && IsHeaderCell(t.rows[0][0])
  {
    if |t.rows| == 0 then Some(0)
    else if t.width == 0 then None
    else if IsHeaderCell(t.rows[0][0]) then Some(1)
    else Some(0)
  }

  /** The header test ignores letter case: a name and its lower-case form are treated alike. */
  lemma HeaderIgnoresCase(s: string)
    ensures IsHeaderCell(Str(s)) <==> IsHeaderCell(Str(Lower(s)))
  {
    LowerIdempotent(s);
  }

  /**
   * `read_file_data` after parsing: every row from `start_row` on adds one entry
   * to column A if the table has a first column and one to column B if it has a
   * second; a missing value adds "".
   */
  method ReadFileData(t: Table) returns (result: Option<Columns>)
    requires WellFormed(t)
    ensures result.None? <==> |t.rows| > 0 && t.width == 0
    ensures result.Some? ==>
      var start := StartRow(t).value;
      var cols := result.value;
      && |cols.a| == (if t.width > 0 then |t.rows| - start else 0)
      && |cols.b| == (if t.width > 1 then |t.rows| - start else 0)
      && (forall i :: 0 <= i < |cols.a| ==> cols.a[i] == CellText(t.rows[start + i][0]))
      && (forall i :: 0 <= i < |cols.b| ==> cols.b[i] == CellText(t.rows[start + i][1]))
  {
    var startRow := StartRow(t);
    if startRow.None? {
      return None;
    }
    var columnA, columnB := CollectColumns(t, startRow.value);
    return Some(Columns(columnA, columnB));
  }

  /** The entries that rows `start .. end - 1` add to column `c`. */
  function Entries(t: Table, start: nat, end: nat, c: nat): (entries: seq<string>)
    requires WellFormed(t) && start <= end <= |t.rows| && c < t.width
  {
    seq(end - start, j requires 0 <= j < end - start => CellText(t.rows[start + j][c]))
  }

  /** Entry `j` of a column is the cell text of row `start + j`. */
  lemma EntriesAt(t: Table, start: nat, end: nat, c: nat)
    requires WellFormed(t) && start <= end <= |t.rows| && c < t.width
    ensures var entries := Entries(t, start, end, c);
      && |entries| == end - start
      && forall j :: 0 <= j < |entries| ==> entries[j] == CellText(t.rows[start + j][c])
  {
  }

  /** One more row adds exactly one entry, its cell's text, at the end of the column. */
  lemma EntriesStep(t: Table, start: nat, end: nat, c: nat)
    requires WellFormed(t) && start <= end < |t.rows| && c < t.width
    ensures Entries(t, start, end + 1, c) == Entries(t, start, end, c) + [CellText(t.rows[end][c])]
  {
    var longer, shorter := Entries(t, start, end + 1, c), Entries(t, start, end, c);
    forall j | 0 <= j < |longer|
      ensures longer[j] == (shorter + [CellText(t.rows[end][c])])[j]
    {
      if j < |shorter| {
        assert longer[j] == shorter[j];
      }
    }
  }

  /** The `for i in range(start_row, len(df))` loop of `read_file_data`. */
  method CollectColumns(t: Table, start: nat) returns (columnA: seq<string>, columnB: seq<string>)
    requires WellFormed(t) && start <= |t.rows|
    ensures |columnA| == (if t.width > 0 then |t.rows| - start else 0)
    ensures |columnB| == (if t.width > 1 then |t.rows| - start else 0)
    ensures forall i :: 0 <= i < |columnA| ==> columnA[i] == CellText(t.rows[start + i][0])
    ensures forall i :: 0 <= i < |columnB| ==> columnB[i] == CellText(t.rows[start + i][1])
  {
    columnA, columnB := [], [];
    for i := start to |t.rows|
      invariant columnA == (if t.width > 0 then Entries(t, start, i, 0) else [])
      invariant columnB == (if t.width > 1 then Entries(t, start, i, 1) else [])
    {
      if 0 < t.width {
        var valA := t.rows[i][0];
        EntriesStep(t, start, i, 0);
        if !valA.Missing? {
          columnA := columnA + [CellText(valA)];
        } else {
          columnA := columnA + [""];
        }
      }
      if 1 < t.width {
        var valB := t.rows[i][1];
        EntriesStep(t, start, i, 1);
        if !valB.Missing? {
          columnB := columnB + [CellText(valB)];
        } else {
          columnB := columnB + [""];
        }
      }
    }
    if 0 < t.width {
      EntriesAt(t, start, |t.rows|, 0);
    }
    if 1 < t.width {
      EntriesAt(t, start, |t.rows|, 1);
    }
  }

  /** Every entry read from the table is free of surrounding whitespace. */
  lemma CellTextIsStripped(v: Value)
    ensures var entry := CellText(v);
      entry == [] || (!IsSpace(entry[0]) && !IsSpace(entry[|entry| - 1]))
  {
    if !v.Missing? {
      StripLeavesNoEdgeSpace(StrOf(v));
    }
  }

  /**
   * `get_pdf_filename` after the prompt: a non-empty name gets ".pdf" appended
   * unless it already ends with it; an empty name stays empty.
   */
  function PdfFileName(name: string): (file: string)
    ensures name == "" <==> file == ""
    ensures name != "" ==> EndsWith(file, ".pdf")
    ensures |name| <= |file| && file[..|name|] == name
    ensures EndsWith(name, ".pdf") ==> file == name
    ensures file == name || file == name + ".pdf"
  {
    if name != "" && !EndsWith(name, ".pdf") then
      EndsWithAppended(name, ".pdf");
      name + ".pdf"
    else name
  }

  /** Applying the suffix rule twice gives the same name as applying it once. */
  lemma PdfFileNameIdempotent(name: string)
    ensures PdfFileName(PdfFileName(name)) == PdfFileName(name)
  {
    if name != "" {
      assert EndsWith(PdfFileName(name), ".pdf");
    }
  }
}
