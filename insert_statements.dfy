/** generate_insert_statements.py: turning the lines of a TSV/CSV file into MySQL
    INSERT statements, and the filtering of the experiment design before it is
    turned into SQL. */
module InsertStatements {
  import opened Wrappers
  import opened Text
  import opened Seqs
  import opened ExperimentDesign

  /** Each field between two copies of q: the list comprehension of add_backticks
      (q = '`') and of add_quotes (q = '\''). The field text is copied as it is;
      a q inside it is not escaped. */
  function WrapAll(fields: seq<string>, q: char): (r: seq<string>)
  {
    seq(|fields|, i requires 0 <= i < |fields| => [q] + fields[i] + [q])
  }

  /** add_backticks(row, d): the header fields as MySQL column names. */
  function AddBackticks(row: string, d: char): string
  {
    JoinWith(",", WrapAll(Split(row, d), '`'))
  }

  /** add_quotes(row, d): the data fields as MySQL string literals. */
  function AddQuotes(row: string, d: char): string
  {
    JoinWith(",", WrapAll(Split(row, d), '\''))
  }

  /** The text between the outer characters of a wrapped field. */
  function Unwrap(f: string): string
  {
    if |f| >= 2 then f[1..|f| - 1] else f
  }

  /** Reading a column or value list back: its comma-separated items, unwrapped. */
  function ParseList(s: string): seq<string>
  {
    MapSeq(Split(s, ','), Unwrap)
  }

  /** Wrapping and joining can be undone when the fields hold no comma, which is
      always so when the delimiter is the comma itself. */
  lemma WrappedRoundTrip(row: string, d: char, q: char)
    requires d == ',' || ',' !in row
    requires q != ','
    ensures ParseList(JoinWith(",", WrapAll(Split(row, d), q))) == Split(row, d)
  {
    var fields := Split(row, d);
    var wrapped := WrapAll(fields, q);
    forall k | 0 <= k < |wrapped| ensures ',' !in wrapped[k] {
      if d == ',' {
        SplitPieces(row, d);
      } else if ',' in fields[k] {
        SplitCharacters(row, d, k, ',');
      }
    }
    SplitJoin(wrapped, ',');
    forall k | 0 <= k < |fields| ensures Unwrap(wrapped[k]) == fields[k] {
      assert wrapped[k][1..|wrapped[k]| - 1] == fields[k];
    }
  }

  /** The header gets one backticked column name per field of the line: exactly
      one more than the line has delimiters, and each reads back verbatim. */
  lemma AddBackticksFields(row: string, d: char)
    requires d == ',' || ',' !in row
    ensures ParseList(AddBackticks(row, d)) == Split(row, d)
    ensures |Split(AddBackticks(row, d), ',')| == Count(row, d) + 1
  {
    WrappedRoundTrip(row, d, '`');
    SplitCount(row, d);
  }

  /** Each data line gets one quoted value per field: exactly one more than the
      line has delimiters, and each reads back verbatim, quotes included. */
  lemma AddQuotesFields(row: string, d: char)
    requires d == ',' || ',' !in row
    ensures ParseList(AddQuotes(row, d)) == Split(row, d)
    ensures |Split(AddQuotes(row, d), ',')| == Count(row, d) + 1
  {
    WrappedRoundTrip(row, d, '\'');
    SplitCount(row, d);
  }

  /** A quote inside a value is copied, not doubled: the literal it produces ends
      early in SQL. */
  lemma AddQuotesNoEscaping()
    ensures AddQuotes("O'Brien\t7", '\t') == "'O'Brien','7'"
  {
    var row := "O'Brien\t7";
    assert '\t' in row && row[7] == '\t';
    assert '\t' !in row[..7];
    IndexOfAt(row, '\t', 7);
    assert row[..7] == "O'Brien" && row[8..] == "7";
    SplitNoDelimiter("7", '\t');
  }

  /** What a wrapped list can contain: characters of the row, the wrapping
      character and the comma. */
  lemma WrappedCharacters(row: string, d: char, q: char, c: char)
    requires c in JoinWith(",", WrapAll(Split(row, d), q))
    ensures c in row || c == q || c == ','
  {
    var wrapped := WrapAll(Split(row, d), q);
    JoinCharacters(",", wrapped, c);
    if c != ',' && c != q {
      var k :| 0 <= k < |wrapped| && c in wrapped[k];
      assert c in Split(row, d)[k];
      SplitCharacters(row, d, k, c);
    }
  }

  /** The value list of one data line: the line is stripped before it is split. */
  function RowValues(line: string, d: char): string
  {
    AddQuotes(Strip(line), d)
  }

  /** The column list, from the header line stripped. */
  function HeaderColumns(line: string, d: char): string
  {
    AddBackticks(Strip(line), d)
  }

  /** A trailing delimiter that is white space (the tab of a TSV) is stripped off
      with the newline, so the empty last field it announced gets no value. */
  lemma TrailingDelimiterDropped(s: string, d: char)
    requires IsSpace(d)
    ensures RowValues(s + [d] + "\n", d) == RowValues(s, d)
    ensures |Split(s + [d], d)| == |Split(s, d)| + 1
  {
    assert s + [d] + "\n" == s + ([d] + "\n");
    StripTrailingBlank(s, [d] + "\n");
    SplitAtDelimiter(s, "", d);
    assert s + [d] + "" == s + [d];
  }

  /** The text of one INSERT statement, without its terminator. */
  function InsertText(table: string, header: string, values: string): string
  {
    "INSERT INTO " + table + "(" + header + ") VALUES(" + values + ")"
  }

  /** One generated statement: the INSERT text, a semicolon, a space and a newline. */
  function Statement(table: string, header: string, values: string): string
  {
    InsertText(table, header, values) + "; \n"
  }

  /** What csv_to_mysql returns for the data lines: one statement per line, in
      order, all with the same column list. */
  function SqlText(table: string, header: string, rows: seq<string>, d: char): string
  {
    if rows == [] then ""
    else SqlText(table, header, rows[..|rows| - 1], d) + Statement(table, header, RowValues(rows[|rows| - 1], d))
  }

  /** The error csv_to_mysql raises: an empty file has no csv_array[0]. */
  datatype GenerateError = EmptyFile

  /** One more data line adds its statement at the end. */
  lemma SqlTextSnoc(table: string, header: string, rows: seq<string>, row: string, d: char)
    ensures SqlText(table, header, rows + [row], d) == SqlText(table, header, rows, d) + Statement(table, header, RowValues(row, d))
  {
    assert (rows + [row])[..|rows|] == rows;
  }

  /** csv_to_mysql(table, path, d), given the lines file.readlines() returns. */
  method CsvToMysql(table: string, lines: seq<string>, d: char) returns (r: Result<string, GenerateError>)
    ensures lines == [] <==> r == Failure(EmptyFile)
    ensures |lines| == 1 ==> r == Success("")
    ensures lines != [] ==> r == Success(SqlText(table, HeaderColumns(lines[0], d), lines[1..], d))
  {
    if |lines| == 0 {
      return Failure(EmptyFile);
    }
    var header := AddBackticks(Strip(lines[0]), d);
    var statements := "";
    var i := 1;
    while i < |lines|
      invariant 1 <= i <= |lines|
      invariant statements == SqlText(table, header, lines[1..i], d)
    {
      statements := statements + Statement(table, header, AddQuotes(Strip(lines[i]), d));
      SliceSnoc(lines, 1, i);
      SqlTextSnoc(table, header, lines[1..i], lines[i], d);
      i := i + 1;
    }
    assert lines[1..i] == lines[1..];
    return Success(statements);
  }

  /** The lines of the generated text, newline terminator removed. */
  function StatementLines(table: string, header: string, rows: seq<string>, d: char): seq<string>
  {
    seq(|rows|, i requires 0 <= i < |rows| => InsertText(table, header, RowValues(rows[i], d)) + "; ")
  }

  lemma StatementLinesInit(table: string, header: string, rows: seq<string>, d: char)
    requires rows != []
    ensures StatementLines(table, header, rows, d) ==
      StatementLines(table, header, rows[..|rows| - 1], d)
      + [InsertText(table, header, RowValues(rows[|rows| - 1], d)) + "; "]
  {
  }

  /** A statement is its line followed by the newline. */
  lemma StatementLine(table: string, header: string, values: string)
    ensures Statement(table, header, values) == (InsertText(table, header, values) + "; ") + ['\n']
  {
    assert "; \n" == "; " + ['\n'];
  }

  lemma {:induction false} SqlTextTerminated(table: string, header: string, rows: seq<string>, d: char)
    ensures SqlText(table, header, rows, d) == Terminated(StatementLines(table, header, rows, d), '\n')
  {
    if rows != [] {
      var n := |rows|;
      var init := rows[..n - 1];
      var v := RowValues(rows[n - 1], d);
      var lines := StatementLines(table, header, rows, d);
      StatementLinesInit(table, header, rows, d);
      assert lines[..n - 1] == StatementLines(table, header, init, d);
      assert lines[n - 1] == InsertText(table, header, v) + "; ";
      SqlTextTerminated(table, header, init, d);
      StatementLine(table, header, v);
      var t := Terminated(lines[..n - 1], '\n');
      assert SqlText(table, header, rows, d) == t + (lines[n - 1] + ['\n']);
      assert t + (lines[n - 1] + ['\n']) == t + lines[n - 1] + ['\n'];
    }
  }

  /** A generated statement line has no newline in it when the table name, the
      column list and the stripped data line have none. */
  lemma StatementLineNoNewline(table: string, header: string, line: string, d: char)
    requires '\n' !in table && '\n' !in header && '\n' !in Strip(line)
    ensures '\n' !in InsertText(table, header, RowValues(line, d)) + "; "
  {
    if '\n' in RowValues(line, d) {
      WrappedCharacters(Strip(line), d, '\'', '\n');
    }
  }

  /** Read line by line, the generated text is one statement for each data line,
      in input order, each of the exact shape INSERT INTO t(h) VALUES(v); with a
      space before the newline and the same column list h, and nothing after the
      last newline. No line of readlines() holds a newline but its last, which
      strip() removes. */
  lemma SqlTextLines(table: string, header: string, rows: seq<string>, d: char)
    requires '\n' !in table && '\n' !in header
    requires forall i :: 0 <= i < |rows| ==> '\n' !in Strip(rows[i])
    ensures var p := Split(SqlText(table, header, rows, d), '\n');
      && |p| == |rows| + 1
      && p[|rows|] == ""
      && forall i :: 0 <= i < |rows| ==> p[i] == InsertText(table, header, RowValues(rows[i], d)) + "; "
  {
    var lines := StatementLines(table, header, rows, d);
    forall k | 0 <= k < |lines| ensures '\n' !in lines[k] {
      StatementLineNoNewline(table, header, rows[k], d);
    }
    SqlTextTerminated(table, header, rows, d);
    SplitTerminated(lines, '\n');
  }

  /** The filtered design the generator writes out: Sample_ID, Condition, Disease. */
  datatype SampleDesign = SampleDesign(sampleId: string, condition: string, disease: string)

  /** The three selected columns of a design row, under their new names. */
  function ToSampleDesign(r: DesignRow): SampleDesign
  {
    SampleDesign(r.run, r.characteristicClinical, r.characteristicDisease)
  }

  /** df[df['Analysed'] != 'No'], projected and renamed. */
  function FilteredDesign(rows: seq<DesignRow>): (r: seq<SampleDesign>)
    ensures |r| <= |rows|
  {
    MapSeq(Filter(rows, IsAnalysed), ToSampleDesign)
  }

  /** The filter works row by row, in order: the result for a table is the
      results for its parts, one after the other, */
  lemma FilteredDesignConcat(a: seq<DesignRow>, b: seq<DesignRow>)
    ensures FilteredDesign(a + b) == FilteredDesign(a) + FilteredDesign(b)
  {
    FilterConcat(a, b, IsAnalysed);
    MapConcat(Filter(a, IsAnalysed), Filter(b, IsAnalysed), ToSampleDesign);
  }

  /** and one row gives its projection exactly when it is not marked 'No'. */
  lemma FilteredDesignRow(r: DesignRow)
    ensures FilteredDesign([r]) == if IsAnalysed(r) then [ToSampleDesign(r)] else []
  {
    assert [r][1..] == [];
  }

  /** A sample is in the filtered table exactly when some analysed row projects
      to it. */
  lemma FilteredDesignMembers(rows: seq<DesignRow>, s: SampleDesign)
    ensures s in FilteredDesign(rows) <==>
      exists i :: 0 <= i < |rows| && IsAnalysed(rows[i]) && ToSampleDesign(rows[i]) == s
  {
    MapFilterMembers(rows, IsAnalysed, ToSampleDesign, s);
  }
}
