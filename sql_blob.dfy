/** The text step of setup_database.py: a .sql file read whole, its empty string
    literals turned into NULL, cut at every semicolon, and the pieces that hold
    more than white space kept as the statements to execute. */
module SqlBlob {
  import opened Text
  import opened Seqs
  import opened InsertStatements

  /** No two adjacent single quotes: no empty string literal is left. */
  predicate NoEmptyQuotes(s: string)
  {
    forall i :: 0 <= i < |s| - 1 ==> !(s[i] == '\'' && s[i + 1] == '\'')
  }

  /** s.replace("''", "NULL"), which scans left to right and replaces
      occurrences that do not overlap. */
  function ReplaceEmptyQuotes(s: string): string
  {
    if |s| < 2 then s
    else if s[0] == '\'' && s[1] == '\'' then "NULL" + ReplaceEmptyQuotes(s[2..])
    else [s[0]] + ReplaceEmptyQuotes(s[1..])
  }

  /** The first character is kept unless a replacement starts there, and the
      result starts with a quote only where the text starts with a quote that
      does not begin an empty literal. */
  lemma ReplaceFirst(s: string)
    ensures s != [] && s[0] != '\'' ==> ReplaceEmptyQuotes(s) != [] && ReplaceEmptyQuotes(s)[0] == s[0]
    ensures var r := ReplaceEmptyQuotes(s);
      r != [] && r[0] == '\'' ==> s != [] && s[0] == '\'' && (|s| == 1 || s[1] != '\'')
  {
  }

  /** No empty literal survives the replacement. */
  lemma {:induction false} ReplaceNoEmptyQuotes(s: string)
    ensures NoEmptyQuotes(ReplaceEmptyQuotes(s))
  {
    var r := ReplaceEmptyQuotes(s);
    if |s| >= 2 {
      if s[0] == '\'' && s[1] == '\'' {
        var rest := ReplaceEmptyQuotes(s[2..]);
        ReplaceNoEmptyQuotes(s[2..]);
        forall i | 0 <= i < |r| - 1 ensures !(r[i] == '\'' && r[i + 1] == '\'') {
          if i >= 4 { assert r[i] == rest[i - 4] && r[i + 1] == rest[i - 3]; }
        }
      } else {
        var rest := ReplaceEmptyQuotes(s[1..]);
        ReplaceNoEmptyQuotes(s[1..]);
        ReplaceFirst(s[1..]);
        forall i | 0 <= i < |r| - 1 ensures !(r[i] == '\'' && r[i + 1] == '\'') {
          if i >= 1 { assert r[i] == rest[i - 1] && r[i + 1] == rest[i]; }
          else { assert r[1] == rest[0]; }
        }
      }
    }
  }

  /** Text without an empty literal is left as it is, so replacing twice is
      replacing once. */
  lemma {:induction false} ReplaceUnchanged(s: string)
    requires NoEmptyQuotes(s)
    ensures ReplaceEmptyQuotes(s) == s
  {
    if |s| >= 2 {
      assert !(s[0] == '\'' && s[1] == '\'');
      assert NoEmptyQuotes(s[1..]) by {
        forall i | 0 <= i < |s[1..]| - 1 ensures !(s[1..][i] == '\'' && s[1..][i + 1] == '\'') {
          assert s[1..][i] == s[i + 1] && s[1..][i + 1] == s[i + 2];
        }
      }
      ReplaceUnchanged(s[1..]);
      assert [s[0]] + s[1..] == s;
    }
  }

  lemma ReplaceIdempotent(s: string)
    ensures ReplaceEmptyQuotes(ReplaceEmptyQuotes(s)) == ReplaceEmptyQuotes(s)
  {
    ReplaceNoEmptyQuotes(s);
    ReplaceUnchanged(ReplaceEmptyQuotes(s));
  }

  /** The replacement brings in no character but those of NULL. */
  lemma {:induction false} ReplaceCharacters(s: string, c: char)
    requires c in ReplaceEmptyQuotes(s)
    ensures c in s || c in "NULL"
  {
    if |s| >= 2 {
      if s[0] == '\'' && s[1] == '\'' {
        if c !in "NULL" {
          assert c in ReplaceEmptyQuotes(s[2..]);
          ReplaceCharacters(s[2..], c);
        }
      } else if c != s[0] {
        assert ReplaceEmptyQuotes(s) == [s[0]] + ReplaceEmptyQuotes(s[1..]);
        assert c in ReplaceEmptyQuotes(s[1..]);
        ReplaceCharacters(s[1..], c);
      }
    }
  }

  /** Text that does not end in a quote can be replaced on its own: no
      replacement straddles its end. */
  lemma {:induction false} ReplaceConcat(a: string, b: string)
    requires a == [] || a[|a| - 1] != '\''
    ensures ReplaceEmptyQuotes(a + b) == ReplaceEmptyQuotes(a) + ReplaceEmptyQuotes(b)
  {
    if a == [] {
      assert a + b == b;
    } else if |a| == 1 {
      if b != [] {
        assert (a + b)[0] == a[0] && (a + b)[1..] == b;
      } else {
        assert a + b == a;
      }
    } else if a[0] == '\'' && a[1] == '\'' {
      assert (a + b)[0] == a[0] && (a + b)[1] == a[1];
      assert (a + b)[2..] == a[2..] + b;
      ReplaceConcat(a[2..], b);
    } else {
      assert (a + b)[0] == a[0] && (a + b)[1] == a[1];
      assert (a + b)[1..] == a[1..] + b;
      ReplaceConcat(a[1..], b);
    }
  }

  /** statement.strip() is truthy: the piece holds more than white space. */
  predicate HasText(p: string)
  {
    !IsBlank(p)
  }

  /** The statements cursor.execute receives for one file, in order: the pieces
      of the replaced text between semicolons that hold more than white space,
      passed as they are (not stripped). */
  function BlobPieces(blob: string): seq<string>
  {
    Filter(Split(ReplaceEmptyQuotes(blob), ';'), HasText)
  }

  /** Every executed piece is non-blank, holds no semicolon and no empty literal,
      and is one of the pieces between semicolons; and every such piece with
      text in it is executed. */
  lemma BlobPiecesClean(blob: string)
    ensures var r := BlobPieces(blob);
      forall i :: 0 <= i < |r| ==> Strip(r[i]) != [] && ';' !in r[i] && NoEmptyQuotes(r[i])
    ensures var pieces := Split(ReplaceEmptyQuotes(blob), ';');
      forall k :: 0 <= k < |pieces| && Strip(pieces[k]) != [] ==> pieces[k] in BlobPieces(blob)
  {
    var text := ReplaceEmptyQuotes(blob);
    var pieces := Split(text, ';');
    ReplaceNoEmptyQuotes(blob);
    SplitPieces(text, ';');
    forall k | 0 <= k < |pieces| ensures NoEmptyQuotes(pieces[k]) {
      PieceNoEmptyQuotes(text, k);
    }
  }

  /** A piece of a split is a stretch of the text, so it inherits the absence of
      empty literals. */
  lemma {:induction false} PieceNoEmptyQuotes(text: string, k: nat)
    requires NoEmptyQuotes(text) && k < |Split(text, ';')|
    ensures NoEmptyQuotes(Split(text, ';')[k])
    decreases |text|
  {
    if ';' in text {
      var i := IndexOf(text, ';');
      var rest := text[i + 1..];
      if k == 0 {
        assert forall j :: 0 <= j < i ==> text[..i][j] == text[j];
      } else {
        assert NoEmptyQuotes(rest) by {
          forall j | 0 <= j < |rest| - 1 ensures !(rest[j] == '\'' && rest[j + 1] == '\'') {
            assert rest[j] == text[i + 1 + j] && rest[j + 1] == text[i + 2 + j];
          }
        }
        PieceNoEmptyQuotes(rest, k - 1);
      }
    }
  }

  /** What the loader sees first of piece i of a generated file: the first
      piece starts right at its INSERT, each later one after the space and the
      newline that followed the previous semicolon. */
  function Lead(i: nat): string
  {
    if i == 0 then "" else " \n"
  }

  /** What a statement's lead holds is blank. */
  lemma LeadBlank(i: nat)
    ensures !HasText(Lead(i))
  {
    if i > 0 {
      assert IsSpace(' ') && IsSpace('\n');
      assert forall k :: 0 <= k < |" \n"| ==> IsSpace(" \n"[k]);
    }
  }

  /** The statement the loader executes for data line i of a generated file. */
  function LoadedStatement(table: string, header: string, row: string, d: char, i: nat): string
  {
    Lead(i) + ReplaceEmptyQuotes(InsertText(table, header, RowValues(row, d)))
  }

  /** No semicolon in a generated INSERT text, after replacement, when there is
      none in the table name, the column list and the stripped line. */
  lemma InsertTextNoSemicolon(table: string, header: string, row: string, d: char)
    requires ';' !in table && ';' !in header && ';' !in Strip(row)
    ensures ';' !in ReplaceEmptyQuotes(InsertText(table, header, RowValues(row, d)))
  {
    var text := InsertText(table, header, RowValues(row, d));
    if ';' in RowValues(row, d) {
      WrappedCharacters(Strip(row), d, '\'', ';');
    }
    if ';' in ReplaceEmptyQuotes(text) {
      ReplaceCharacters(text, ';');
    }
  }

  /** Generated text is empty or ends in a newline. */
  lemma SqlTextEnd(table: string, header: string, rows: seq<string>, d: char)
    ensures var t := SqlText(table, header, rows, d); t == [] || t[|t| - 1] == '\n'
  {
  }

  /** Replacing in the generated text one statement at a time. */
  lemma ReplaceSqlTextStep(table: string, header: string, rows: seq<string>, d: char)
    requires rows != []
    ensures ReplaceEmptyQuotes(SqlText(table, header, rows, d)) ==
      ReplaceEmptyQuotes(SqlText(table, header, rows[..|rows| - 1], d))
      + ReplaceEmptyQuotes(InsertText(table, header, RowValues(rows[|rows| - 1], d))) + [';'] + " \n"
  {
    var prev := SqlText(table, header, rows[..|rows| - 1], d);
    var text := InsertText(table, header, RowValues(rows[|rows| - 1], d));
    SqlTextEnd(table, header, rows[..|rows| - 1], d);
    ReplaceConcat(prev, text + "; \n");
    ReplaceConcat(text, "; \n");
    assert ReplaceEmptyQuotes("; \n") == "; \n";
  }

  /** The statements the loader executes for the data lines of a generated file. */
  function LoadedStatements(table: string, header: string, rows: seq<string>, d: char): seq<string>
  {
    seq(|rows|, i requires 0 <= i < |rows| => LoadedStatement(table, header, rows[i], d, i))
  }

  lemma LoadedStatementsInit(table: string, header: string, rows: seq<string>, d: char)
    requires rows != []
    ensures LoadedStatements(table, header, rows, d) ==
      LoadedStatements(table, header, rows[..|rows| - 1], d)
      + [Lead(|rows| - 1) + ReplaceEmptyQuotes(InsertText(table, header, RowValues(rows[|rows| - 1], d)))]
  {
  }

  /** The generated text after replacement, cut at its semicolons. */
  lemma {:induction false} GeneratedSplit(table: string, header: string, rows: seq<string>, d: char)
    requires ';' !in table && ';' !in header
    requires forall i :: 0 <= i < |rows| ==> ';' !in Strip(rows[i])
    ensures Split(ReplaceEmptyQuotes(SqlText(table, header, rows, d)), ';') ==
      LoadedStatements(table, header, rows, d) + [Lead(|rows|)]
  {
    if rows != [] {
      var n := |rows|;
      var init := rows[..n - 1];
      var prev := ReplaceEmptyQuotes(SqlText(table, header, init, d));
      var x := ReplaceEmptyQuotes(InsertText(table, header, RowValues(rows[n - 1], d)));
      var before := LoadedStatements(table, header, init, d);
      ReplaceSqlTextStep(table, header, rows, d);
      InsertTextNoSemicolon(table, header, rows[n - 1], d);
      assert forall i :: 0 <= i < |init| ==> ';' !in Strip(init[i]) by {
        forall i | 0 <= i < |init| ensures ';' !in Strip(init[i]) { assert init[i] == rows[i]; }
      }
      GeneratedSplit(table, header, init, d);
      var p := Split(prev, ';');
      assert p == before + [Lead(n - 1)];
      SplitStatementStep(prev, x, " \n", ';');
      assert p[..|p| - 1] == before && p[|p| - 1] == Lead(n - 1);
      LoadedStatementsInit(table, header, rows, d);
    }
  }

  /** One more statement and its terminator: the last piece grows by the
      statement, and what follows the semicolon is a piece of its own. */
  lemma SplitStatementStep(a: string, x: string, tail: string, d: char)
    requires d !in x && d !in tail
    ensures var p := Split(a, d);
      Split(a + x + [d] + tail, d) == p[..|p| - 1] + [p[|p| - 1] + x] + [tail]
  {
    SplitAtDelimiter(a + x, tail, d);
    SplitExtendLast(a, x, d);
    SplitNoDelimiter(tail, d);
  }

  /** A generated statement holds text: its INSERT keyword. */
  lemma LoadedStatementHasText(table: string, header: string, row: string, d: char, i: nat)
    ensures HasText(LoadedStatement(table, header, row, d, i))
  {
    var text := InsertText(table, header, RowValues(row, d));
    var x := ReplaceEmptyQuotes(text);
    assert text[0] == 'I';
    ReplaceFirst(text);
    assert LoadedStatement(table, header, row, d, i)[|Lead(i)|] == 'I';
  }

  /** Cross-file round trip: the loader executes exactly one statement per data
      line of a file csv_to_mysql generated, in order, when no value holds a
      semicolon. Statement i is the INSERT of line i with its empty literals
      replaced; the blank piece after the last semicolon is skipped. */
  lemma GeneratedBlobPieces(table: string, header: string, rows: seq<string>, d: char)
    requires ';' !in table && ';' !in header
    requires forall i :: 0 <= i < |rows| ==> ';' !in Strip(rows[i])
    ensures BlobPieces(SqlText(table, header, rows, d)) == LoadedStatements(table, header, rows, d)
  {
    var stmts := LoadedStatements(table, header, rows, d);
    GeneratedSplit(table, header, rows, d);
    forall i | 0 <= i < |rows| ensures HasText(stmts[i]) {
      LoadedStatementHasText(table, header, rows[i], d, i);
    }
    LeadBlank(|rows|);
    FilterDropLast(stmts, Lead(|rows|), HasText);
  }
}
