/** setup_database.py: the tables are dropped and created again, the generated
    .sql files are loaded statement by statement, and the work is committed. The
    MySQL server is a statement log together with the server's verdict on
    each statement. */
module DatabaseSetup {
  import opened Wrappers
  import opened Text
  import opened Seqs
  import opened InsertStatements
  import opened SqlBlob

  /** The nine tables the script manages. */
  datatype Table =
    | RawCounts | ExperimentMetadata | NormalizedCounts
    | TnbcVsNormal | NontnbcVsNormal | Her2VsNormal
    | TnbcVsNontnbc | TnbcVsHer2 | NontnbcVsHer2

  /** The table's name in SQL. */
  function Name(t: Table): string
  {
    match t
    case RawCounts => "raw_counts"
    case ExperimentMetadata => "experiment_metadata"
    case NormalizedCounts => "normalized_counts"
    case TnbcVsNormal => "tnbc_vs_normal_results"
    case NontnbcVsNormal => "nontnbc_vs_normal_results"
    case Her2VsNormal => "her2_vs_normal_results"
    case TnbcVsNontnbc => "tnbc_vs_nontnbc_results"
    case TnbcVsHer2 => "tnbc_vs_her2_results"
    case NontnbcVsHer2 => "nontnbc_vs_her2_results"
  }

  /** The tables in the order the script loads their files. */
  const Tables: seq<Table> := [
    RawCounts, ExperimentMetadata, NormalizedCounts,
    TnbcVsNormal, NontnbcVsNormal, Her2VsNormal, TnbcVsNontnbc, TnbcVsHer2, NontnbcVsHer2]

  /** The six differential-expression results tables, all made from one template. */
  const ComparisonTables: seq<Table> := [
    TnbcVsNormal, NontnbcVsNormal, Her2VsNormal, TnbcVsNontnbc, TnbcVsHer2, NontnbcVsHer2]

  /** The column layouts of the CREATE TABLE texts, told apart but not spelled out. */
  datatype Layout = RawCountsLayout | MetadataLayout | NormalizedLayout | ComparisonLayout

  /** A statement sent to the server: DROP TABLE IF EXISTS, CREATE TABLE, or a
      piece of a .sql file. */
  datatype Stmt = Drop(table: Table) | Create(table: Table, layout: Layout) | Exec(sql: string)

  function ToExec(p: string): Stmt
  {
    Exec(p)
  }

  function ToDrop(t: Table): Stmt
  {
    Drop(t)
  }

  /** The comparison template filled in with a table name. */
  function ComparisonCreate(t: Table): Stmt
  {
    Create(t, ComparisonLayout)
  }

  /** The nine DROP statements, as the script issues them one after the other. */
  const DropStatements: seq<Stmt> := [
    Drop(RawCounts), Drop(ExperimentMetadata), Drop(NormalizedCounts),
    Drop(TnbcVsNormal), Drop(NontnbcVsNormal), Drop(Her2VsNormal),
    Drop(TnbcVsNontnbc), Drop(TnbcVsHer2), Drop(NontnbcVsHer2)]

  /** The three tables with a layout of their own. */
  const BaseCreates: seq<Stmt> := [
    Create(RawCounts, RawCountsLayout), Create(ExperimentMetadata, MetadataLayout),
    Create(NormalizedCounts, NormalizedLayout)]

  /** The comparison tables, created from the template in list order. */
  function ComparisonCreates(): seq<Stmt>
  {
    MapSeq(ComparisonTables, ComparisonCreate)
  }

  /** Everything before the first INSERT. */
  function Schema(): seq<Stmt>
  {
    DropStatements + BaseCreates + ComparisonCreates()
  }

  /** The statements executed for a list of pieces: those with text in them. */
  function ExecPieces(pieces: seq<string>): seq<Stmt>
  {
    if pieces == [] then []
    else (if HasText(pieces[0]) then [Exec(pieces[0])] else []) + ExecPieces(pieces[1..])
  }

  /** ExecPieces is the selection of the pieces with text, each made a statement. */
  lemma {:induction false} ExecPiecesFiltered(pieces: seq<string>)
    ensures ExecPieces(pieces) == MapSeq(Filter(pieces, HasText), ToExec)
  {
    if pieces != [] {
      ExecPiecesFiltered(pieces[1..]);
      var head := if HasText(pieces[0]) then [pieces[0]] else [];
      MapConcat(head, Filter(pieces[1..], HasText), ToExec);
    }
  }

  /** The statements the script executes for one file's text: its pieces
      between semicolons, after the empty literals are replaced, that have
      text in them. */
  function FileStatements(blob: string): seq<Stmt>
  {
    ExecPieces(Split(ReplaceEmptyQuotes(blob), ';'))
  }

  /** They are the file's non-blank pieces, in order. */
  lemma FileStatementsPieces(blob: string)
    ensures FileStatements(blob) == MapSeq(BlobPieces(blob), ToExec)
  {
    ExecPiecesFiltered(Split(ReplaceEmptyQuotes(blob), ';'));
  }

  /** The statements of a run, in order, and the table whose .sql file turned out
      to be missing, if one did (open raises FileNotFoundError). A table's file
      is given by its text; file names and paths are not modelled. */
  datatype Plan = Plan(stmts: seq<Stmt>, missing: Option<Table>)

  /** The load phase: each table's file in turn, until one is missing. */
  function Loads(files: map<Table, string>, tables: seq<Table>): Plan
  {
    if tables == [] then Plan([], None)
    else if tables[0] !in files then Plan([], Some(tables[0]))
    else
      var rest := Loads(files, tables[1..]);
      Plan(FileStatements(files[tables[0]]) + rest.stmts, rest.missing)
  }

  /** The part of a script after its fixed statements: the template for each
      comparison table, then the load phase. */
  function CreateAndLoadPlan(comparisons: seq<Table>, files: map<Table, string>, tables: seq<Table>): Plan
  {
    var loads := Loads(files, tables);
    Plan(MapSeq(comparisons, ComparisonCreate) + loads.stmts, loads.missing)
  }

  /** A script of the same shape as setup_database.py: fixed statements (the
      DROPs and CREATEs), then the comparison tables and the load phase. */
  function ScriptPlan(fixed: seq<Stmt>, comparisons: seq<Table>, files: map<Table, string>, tables: seq<Table>): Plan
  {
    var rest := CreateAndLoadPlan(comparisons, files, tables);
    Plan(fixed + rest.stmts, rest.missing)
  }

  /** What the script sends to a server that accepts everything. */
  function SetupPlan(files: map<Table, string>): Plan
  {
    ScriptPlan(DropStatements + BaseCreates, ComparisonTables, files, Tables)
  }

  /** The schema comes first, then the load phase. */
  lemma SetupPlanSchema(files: map<Table, string>)
    ensures SetupPlan(files) == Plan(Schema() + Loads(files, Tables).stmts, Loads(files, Tables).missing)
  {
    var c := ComparisonCreates();
    var l := Loads(files, Tables).stmts;
    assert (DropStatements + BaseCreates) + (c + l) == DropStatements + BaseCreates + c + l;
  }

  /** Every statement is accepted. */
  predicate AllAccepted(stmts: seq<Stmt>, accepts: Stmt -> bool)
  {
    forall i :: 0 <= i < |stmts| ==> accepts(stmts[i])
  }

  /** The position of the first statement the server refuses, or the length of
      the sequence when it refuses none. */
  function FirstRejected(stmts: seq<Stmt>, accepts: Stmt -> bool): (k: nat)
    ensures k <= |stmts|
  {
    if stmts == [] || !accepts(stmts[0]) then 0 else FirstRejected(stmts[1..], accepts) + 1
  }

  /** Everything before the first refusal is accepted, and the statement at it
      is refused. */
  lemma {:induction false} FirstRejectedSpec(stmts: seq<Stmt>, accepts: Stmt -> bool)
    ensures var k := FirstRejected(stmts, accepts);
      AllAccepted(stmts[..k], accepts) && (k < |stmts| ==> !accepts(stmts[k]))
  {
    if stmts != [] && accepts(stmts[0]) {
      FirstRejectedSpec(stmts[1..], accepts);
      var k := FirstRejected(stmts[1..], accepts);
      assert stmts[..k + 1] == [stmts[0]] + stmts[1..][..k];
    }
  }

  /** FirstRejected is the one position before which all are accepted and at
      which one is refused. */
  lemma {:induction false} FirstRejectedAt(stmts: seq<Stmt>, accepts: Stmt -> bool, k: nat)
    requires k <= |stmts| && AllAccepted(stmts[..k], accepts)
    requires k < |stmts| ==> !accepts(stmts[k])
    ensures FirstRejected(stmts, accepts) == k
  {
    if k > 0 {
      assert stmts[..k][0] == stmts[0];
      assert stmts[1..][..k - 1] == stmts[..k][1..];
      FirstRejectedAt(stmts[1..], accepts, k - 1);
    }
  }

  /** With every statement accepted, there is no refusal. */
  lemma {:induction false} NoneRejected(stmts: seq<Stmt>, accepts: Stmt -> bool)
    requires AllAccepted(stmts, accepts)
    ensures FirstRejected(stmts, accepts) == |stmts|
  {
    if stmts != [] {
      assert accepts(stmts[0]);
      assert AllAccepted(stmts[1..], accepts) by {
        forall i | 0 <= i < |stmts[1..]| ensures accepts(stmts[1..][i]) {
          assert stmts[1..][i] == stmts[i + 1];
        }
      }
      NoneRejected(stmts[1..], accepts);
    }
  }

  /** No statement is refused exactly when all are accepted. */
  lemma NoneRejectedIff(stmts: seq<Stmt>, accepts: Stmt -> bool)
    ensures FirstRejected(stmts, accepts) == |stmts| <==> AllAccepted(stmts, accepts)
  {
    FirstRejectedSpec(stmts, accepts);
    if AllAccepted(stmts, accepts) {
      NoneRejected(stmts, accepts);
    }
    if FirstRejected(stmts, accepts) == |stmts| {
      assert stmts[..|stmts|] == stmts;
    }
  }

  /** Statements are refused or not one by one: the first refusal in a + b is in
      a, or else it is b's after all of a. */
  lemma {:induction false} FirstRejectedConcat(a: seq<Stmt>, b: seq<Stmt>, accepts: Stmt -> bool)
    ensures FirstRejected(a + b, accepts) ==
      if FirstRejected(a, accepts) < |a| then FirstRejected(a, accepts) else |a| + FirstRejected(b, accepts)
  {
    if a == [] {
      assert a + b == b;
    } else {
      assert (a + b)[0] == a[0];
      if accepts(a[0]) {
        assert (a + b)[1..] == a[1..] + b;
        FirstRejectedConcat(a[1..], b, accepts);
      }
    }
  }

  /** One more accepted statement after accepted ones. */
  lemma AcceptedStep(done: seq<Stmt>, s: Stmt, accepts: Stmt -> bool)
    requires FirstRejected(done, accepts) == |done| && accepts(s)
    ensures FirstRejected(done + [s], accepts) == |done + [s]|
  {
    assert [s][1..] == [];
    FirstRejectedConcat(done, [s], accepts);
  }

  /** After statements that are all accepted, the first refusal is the first one
      among the rest. */
  lemma FirstRejectedAfter(done: seq<Stmt>, rest: seq<Stmt>, accepts: Stmt -> bool)
    requires AllAccepted(done, accepts)
    ensures FirstRejected(done + rest, accepts) == |done| + FirstRejected(rest, accepts)
  {
    NoneRejected(done, accepts);
    FirstRejectedConcat(done, rest, accepts);
  }

  /** How a run ends: everything loaded and committed, a file missing, or a
      statement refused by the server (cursor.execute raises). */
  datatype Outcome = Loaded | MissingFile(table: Table) | Rejected(stmt: Stmt)

  /** How a plan ends on a server with the given verdicts. */
  function RunOutcome(plan: Plan, accepts: Stmt -> bool): Outcome
  {
    var k := FirstRejected(plan.stmts, accepts);
    if k < |plan.stmts| then Rejected(plan.stmts[k])
    else if plan.missing.Some? then MissingFile(plan.missing.value)
    else Loaded
  }

  /** What the server has executed when a plan ends: everything before the
      first statement it refuses. */
  function Sent(plan: Plan, accepts: Stmt -> bool): seq<Stmt>
  {
    plan.stmts[..FirstRejected(plan.stmts, accepts)]
  }

  /** The outcome of the whole script. */
  function ExpectedOutcome(files: map<Table, string>, accepts: Stmt -> bool): Outcome
  {
    RunOutcome(SetupPlan(files), accepts)
  }

  /** A plan run after statements a ends at the first of a that is refused. */
  lemma RunAfterRejected(a: seq<Stmt>, plan: Plan, accepts: Stmt -> bool)
    requires FirstRejected(a, accepts) < |a|
    ensures RunOutcome(Plan(a + plan.stmts, plan.missing), accepts) == Rejected(a[FirstRejected(a, accepts)])
    ensures Sent(Plan(a + plan.stmts, plan.missing), accepts) == a[..FirstRejected(a, accepts)]
  {
    var k := FirstRejected(a, accepts);
    FirstRejectedConcat(a, plan.stmts, accepts);
    assert (a + plan.stmts)[k] == a[k];
    assert (a + plan.stmts)[..k] == a[..k];
  }

  /** After statements a that are all accepted, the first refusal of a plan
      comes |a| statements later. */
  lemma SentAfterAccepted(a: seq<Stmt>, plan: Plan, accepts: Stmt -> bool)
    requires FirstRejected(a, accepts) == |a|
    ensures FirstRejected(a + plan.stmts, accepts) == |a| + FirstRejected(plan.stmts, accepts)
    ensures Sent(Plan(a + plan.stmts, plan.missing), accepts) == a + Sent(plan, accepts)
  {
    var j := FirstRejected(plan.stmts, accepts);
    FirstRejectedConcat(a, plan.stmts, accepts);
    ConcatPrefix(a, plan.stmts, j);
  }

  /** When all of a is accepted, a plan run after a ends as it does alone. */
  lemma RunAfterAccepted(a: seq<Stmt>, plan: Plan, accepts: Stmt -> bool)
    requires FirstRejected(a, accepts) == |a|
    ensures RunOutcome(Plan(a + plan.stmts, plan.missing), accepts) == RunOutcome(plan, accepts)
    ensures Sent(Plan(a + plan.stmts, plan.missing), accepts) == a + Sent(plan, accepts)
  {
    var j := FirstRejected(plan.stmts, accepts);
    SentAfterAccepted(a, plan, accepts);
    if j < |plan.stmts| {
      assert (a + plan.stmts)[|a| + j] == plan.stmts[j];
    }
  }

  /** The database connection: what the server has executed, in order, and
      whether the work was committed. */
  class Connection {
    /** The server's verdict: true when it executes a statement without error. */
    const accepts: Stmt -> bool
    var log: seq<Stmt>
    var committed: bool

    constructor(accepts: Stmt -> bool)
      ensures this.accepts == accepts && log == [] && !committed
    {
      this.accepts := accepts;
      log := [];
      committed := false;
    }

    /** cursor.execute(s): the statement is executed, or refused and not logged. */
    method Execute(s: Stmt) returns (ok: bool)
      modifies this
      ensures ok == accepts(s)
      ensures log == if ok then old(log) + [s] else old(log)
      ensures committed == old(committed)
    {
      ok := accepts(s);
      if ok {
        log := log + [s];
      }
    }

    /** connection.commit(). */
    method Commit()
      modifies this
      ensures committed && log == old(log)
    {
      committed := true;
    }
  }

  /** cursor.execute on each statement in turn, stopping at the first one the
      server refuses. */
  method ExecuteAll(conn: Connection, stmts: seq<Stmt>) returns (rejected: Option<Stmt>)
    modifies conn
    ensures var k := FirstRejected(stmts, conn.accepts);
      && conn.log == old(conn.log) + stmts[..k]
      && rejected == (if k < |stmts| then Some(stmts[k]) else None)
    ensures conn.committed == old(conn.committed)
  {
    var i := 0;
    while i < |stmts|
      invariant 0 <= i <= |stmts|
      invariant conn.log == old(conn.log) + stmts[..i]
      invariant AllAccepted(stmts[..i], conn.accepts)
      invariant conn.committed == old(conn.committed)
    {
      var ok := conn.Execute(stmts[i]);
      if !ok {
        FirstRejectedAt(stmts, conn.accepts, i);
        return Some(stmts[i]);
      }
      SliceSnoc(stmts, 0, i);
      i := i + 1;
    }
    assert stmts[..i] == stmts;
    FirstRejectedAt(stmts, conn.accepts, i);
    return None;
  }

  lemma {:induction false} ExecPiecesConcat(a: seq<string>, b: seq<string>)
    ensures ExecPieces(a + b) == ExecPieces(a) + ExecPieces(b)
  {
    if a == [] {
      assert a + b == b;
    } else {
      var h := if HasText(a[0]) then [Exec(a[0])] else [];
      assert (a + b)[0] == a[0];
      assert (a + b)[1..] == a[1..] + b;
      assert ExecPieces(a + b) == h + ExecPieces(a[1..] + b);
      ExecPiecesConcat(a[1..], b);
      ConcatAssoc(h, ExecPieces(a[1..]), ExecPieces(b));
    }
  }

  lemma ExecPiecesOne(p: string)
    ensures ExecPieces([p]) == if HasText(p) then [Exec(p)] else []
  {
    assert [p][1..] == [];
  }

  /** One more piece: it adds its statement when it has text in it. */
  lemma ExecPiecesStep(pieces: seq<string>, m: nat)
    requires m < |pieces|
    ensures ExecPieces(pieces[..m + 1]) ==
      ExecPieces(pieces[..m]) + (if HasText(pieces[m]) then [Exec(pieces[m])] else [])
  {
    SliceSnoc(pieces, 0, m);
    ExecPiecesConcat(pieces[..m], [pieces[m]]);
    ExecPiecesOne(pieces[m]);
  }

  /** A refused piece after accepted ones is the first refusal of the file. */
  lemma ExecPiecesRejected(pieces: seq<string>, m: nat, accepts: Stmt -> bool)
    requires m < |pieces| && HasText(pieces[m])
    requires FirstRejected(ExecPieces(pieces[..m]), accepts) == |ExecPieces(pieces[..m])|
    requires !accepts(Exec(pieces[m]))
    ensures var stmts := ExecPieces(pieces); var k := FirstRejected(stmts, accepts);
      && k < |stmts| && stmts[k] == Exec(pieces[m]) && stmts[..k] == ExecPieces(pieces[..m])
  {
    var done := ExecPieces(pieces[..m]);
    var tail := [Exec(pieces[m])] + ExecPieces(pieces[m + 1..]);
    assert pieces == pieces[..m + 1] + pieces[m + 1..];
    ExecPiecesConcat(pieces[..m + 1], pieces[m + 1..]);
    ExecPiecesStep(pieces, m);
    assert ExecPieces(pieces) == done + tail;
    FirstRejectedConcat(done, tail, accepts);
    assert FirstRejected(tail, accepts) == 0;
    assert (done + tail)[..|done|] == done;
  }

  /** The inner loop for one file: the text with its empty literals replaced,
      cut at the semicolons, and each piece with text in it executed as it is,
      stopping at the first one the server refuses. */
  method LoadFile(conn: Connection, blob: string) returns (rejected: Option<Stmt>)
    modifies conn
    ensures var stmts := FileStatements(blob); var k := FirstRejected(stmts, conn.accepts);
      && conn.log == old(conn.log) + stmts[..k]
      && rejected == (if k < |stmts| then Some(stmts[k]) else None)
    ensures conn.committed == old(conn.committed)
  {
    var text := ReplaceEmptyQuotes(blob);
    var pieces := Split(text, ';');
    var m := 0;
    while m < |pieces|
      invariant 0 <= m <= |pieces|
      invariant conn.log == old(conn.log) + ExecPieces(pieces[..m])
      invariant FirstRejected(ExecPieces(pieces[..m]), conn.accepts) == |ExecPieces(pieces[..m])|
      invariant conn.committed == old(conn.committed)
    {
      ghost var done := ExecPieces(pieces[..m]);
      ExecPiecesStep(pieces, m);
      if Strip(pieces[m]) != [] {
        var ok := conn.Execute(Exec(pieces[m]));
        if !ok {
          ExecPiecesRejected(pieces, m, conn.accepts);
          return Some(Exec(pieces[m]));
        }
        AcceptedStep(done, Exec(pieces[m]), conn.accepts);
        ConcatAssoc(old(conn.log), done, [Exec(pieces[m])]);
      } else {
        assert done + [] == done;
      }
      m := m + 1;
    }
    assert pieces[..m] == pieces;
    ghost var stmts := ExecPieces(pieces);
    assert stmts[..|stmts|] == stmts;
    return None;
  }

  /** The script's statements in order: its fixed statements one after the
      other, then the comparison tables and the files, the run stopping at the
      first statement the server refuses or the first missing file. */
  method RunScript(conn: Connection, fixed: seq<Stmt>, comparisons: seq<Table>,
                   files: map<Table, string>, tables: seq<Table>) returns (outcome: Outcome)
    modifies conn
    ensures outcome == RunOutcome(ScriptPlan(fixed, comparisons, files, tables), conn.accepts)
    ensures conn.log == old(conn.log) + Sent(ScriptPlan(fixed, comparisons, files, tables), conn.accepts)
    ensures conn.committed == old(conn.committed)
  {
    ghost var rest := CreateAndLoadPlan(comparisons, files, tables);
    var rejected := ExecuteAll(conn, fixed);
    if rejected.Some? {
      RunAfterRejected(fixed, rest, conn.accepts);
      return Rejected(rejected.value);
    }
    RunAfterAccepted(fixed, rest, conn.accepts);
    assert fixed[..|fixed|] == fixed;
    outcome := CreateAndLoad(conn, comparisons, files, tables);
    ConcatAssoc(old(conn.log), fixed, Sent(rest, conn.accepts));
  }

  /** The comparison tables, then the files. */
  method CreateAndLoad(conn: Connection, comparisons: seq<Table>, files: map<Table, string>, tables: seq<Table>)
    returns (outcome: Outcome)
    modifies conn
    ensures outcome == RunOutcome(CreateAndLoadPlan(comparisons, files, tables), conn.accepts)
    ensures conn.log == old(conn.log) + Sent(CreateAndLoadPlan(comparisons, files, tables), conn.accepts)
    ensures conn.committed == old(conn.committed)
  {
    ghost var creates := MapSeq(comparisons, ComparisonCreate);
    ghost var loads := Loads(files, tables);
    var rejected := CreateComparisons(conn, comparisons);
    if rejected.Some? {
      RunAfterRejected(creates, loads, conn.accepts);
      return Rejected(rejected.value);
    }
    RunAfterAccepted(creates, loads, conn.accepts);
    assert creates[..|creates|] == creates;
    outcome := LoadAll(conn, files, tables);
    ConcatAssoc(old(conn.log), creates, Sent(loads, conn.accepts));
  }

  /** The whole script on a fresh connection, given the text of each table's
      .sql file (a table without an entry has no file). The server ends up with
      the statements of the plan up to the first one it refuses; the run stops
      there, or at the first missing file, and commits, once and last, only when
      neither happens. */
  method Setup(conn: Connection, files: map<Table, string>) returns (outcome: Outcome)
    requires conn.log == [] && !conn.committed
    modifies conn
    ensures outcome == ExpectedOutcome(files, conn.accepts)
    ensures conn.log == Sent(SetupPlan(files), conn.accepts)
    ensures conn.committed <==> outcome == Loaded
  {
    outcome := RunScript(conn, DropStatements + BaseCreates, ComparisonTables, files, Tables);
    if outcome == Loaded {
      conn.Commit();
    }
  }

  /** The loop over the comparison tables: the template filled in with each name,
      in list order, stopping at the first one the server refuses. */
  method CreateComparisons(conn: Connection, tables: seq<Table>) returns (rejected: Option<Stmt>)
    modifies conn
    ensures var creates := MapSeq(tables, ComparisonCreate); var k := FirstRejected(creates, conn.accepts);
      && conn.log == old(conn.log) + creates[..k]
      && rejected == (if k < |creates| then Some(creates[k]) else None)
    ensures conn.committed == old(conn.committed)
  {
    ghost var creates := MapSeq(tables, ComparisonCreate);
    var i := 0;
    while i < |tables|
      invariant 0 <= i <= |tables|
      invariant conn.log == old(conn.log) + creates[..i]
      invariant AllAccepted(creates[..i], conn.accepts)
      invariant conn.committed == old(conn.committed)
    {
      var s := ComparisonCreate(tables[i]);
      var ok := conn.Execute(s);
      if !ok {
        FirstRejectedAt(creates, conn.accepts, i);
        return Some(s);
      }
      SliceSnoc(creates, 0, i);
      i := i + 1;
    }
    assert creates[..i] == creates;
    NoneRejected(creates, conn.accepts);
    return None;
  }

  /** The load phase from the j-th table on. */
  lemma LoadsStep(files: map<Table, string>, tables: seq<Table>, j: nat)
    requires j < |tables|
    ensures var rest := Loads(files, tables[j + 1..]);
      Loads(files, tables[j..]) ==
        if tables[j] !in files then Plan([], Some(tables[j]))
        else Plan(FileStatements(files[tables[j]]) + rest.stmts, rest.missing)
  {
    assert tables[j..][0] == tables[j] && tables[j..][1..] == tables[j + 1..];
  }

  lemma ConcatAssoc(a: seq<Stmt>, b: seq<Stmt>, c: seq<Stmt>)
    ensures a + (b + c) == (a + b) + c
  {
  }

  /** The load phase is the statements done so far followed by the load phase
      from the j-th table on. */
  predicate LoadsFrom(files: map<Table, string>, tables: seq<Table>, j: nat, done: seq<Stmt>)
    requires j <= |tables|
  {
    var rest := Loads(files, tables[j..]);
    Loads(files, tables) == Plan(done + rest.stmts, rest.missing)
  }

  /** Loading the j-th table's file moves the split point past its statements. */
  lemma LoadsAdvance(files: map<Table, string>, tables: seq<Table>, j: nat, done: seq<Stmt>)
    requires j < |tables| && tables[j] in files && LoadsFrom(files, tables, j, done)
    ensures LoadsFrom(files, tables, j + 1, done + FileStatements(files[tables[j]]))
  {
    LoadsStep(files, tables, j);
    ConcatAssoc(done, FileStatements(files[tables[j]]), Loads(files, tables[j + 1..]).stmts);
  }

  /** A missing file ends the run after what was done. */
  lemma LoadsMissing(files: map<Table, string>, tables: seq<Table>, j: nat, done: seq<Stmt>, accepts: Stmt -> bool)
    requires j < |tables| && tables[j] !in files && LoadsFrom(files, tables, j, done)
    requires FirstRejected(done, accepts) == |done|
    ensures RunOutcome(Loads(files, tables), accepts) == MissingFile(tables[j])
    ensures Sent(Loads(files, tables), accepts) == done
  {
    LoadsStep(files, tables, j);
    RunAfterAccepted(done, Loads(files, tables[j..]), accepts);
  }

  /** A statement refused in the j-th table's file ends the run there. */
  lemma LoadsRejected(files: map<Table, string>, tables: seq<Table>, j: nat, done: seq<Stmt>, accepts: Stmt -> bool)
    requires j < |tables| && tables[j] in files && LoadsFrom(files, tables, j, done)
    requires FirstRejected(done, accepts) == |done|
    requires FirstRejected(FileStatements(files[tables[j]]), accepts) < |FileStatements(files[tables[j]])|
    ensures var mine := FileStatements(files[tables[j]]); var k := FirstRejected(mine, accepts);
      && RunOutcome(Loads(files, tables), accepts) == Rejected(mine[k])
      && Sent(Loads(files, tables), accepts) == done + mine[..k]
  {
    var rest := Loads(files, tables[j..]);
    var mine := FileStatements(files[tables[j]]);
    LoadsStep(files, tables, j);
    RunAfterAccepted(done, rest, accepts);
    RunAfterRejected(mine, Loads(files, tables[j + 1..]), accepts);
  }

  /** With every file loaded, the run ends well after all that was done. */
  lemma LoadsComplete(files: map<Table, string>, tables: seq<Table>, done: seq<Stmt>, accepts: Stmt -> bool)
    requires LoadsFrom(files, tables, |tables|, done)
    requires FirstRejected(done, accepts) == |done|
    ensures RunOutcome(Loads(files, tables), accepts) == Loaded
    ensures Sent(Loads(files, tables), accepts) == done
  {
    assert tables[|tables|..] == [];
    RunAfterAccepted(done, Plan([], None), accepts);
  }

  /** The loop over the files, in table order: each file is loaded in turn
      until one is missing or a statement is refused. */
  method LoadAll(conn: Connection, files: map<Table, string>, tables: seq<Table>) returns (outcome: Outcome)
    modifies conn
    ensures outcome == RunOutcome(Loads(files, tables), conn.accepts)
    ensures conn.log == old(conn.log) + Sent(Loads(files, tables), conn.accepts)
    ensures conn.committed == old(conn.committed)
  {
    ghost var done: seq<Stmt> := [];
    assert tables[0..] == tables;
    var j := 0;
    while j < |tables|
      invariant 0 <= j <= |tables|
      invariant conn.log == old(conn.log) + done
      invariant FirstRejected(done, conn.accepts) == |done|
      invariant LoadsFrom(files, tables, j, done)
      invariant conn.committed == old(conn.committed)
    {
      var t := tables[j];
      if t !in files {
        LoadsMissing(files, tables, j, done, conn.accepts);
        return MissingFile(t);
      }
      ghost var mine := FileStatements(files[t]);
      var rejected := LoadFile(conn, files[t]);
      ConcatAssoc(old(conn.log), done, mine[..FirstRejected(mine, conn.accepts)]);
      if rejected.Some? {
        LoadsRejected(files, tables, j, done, conn.accepts);
        return Rejected(rejected.value);
      }
      LoadsAdvance(files, tables, j, done);
      FirstRejectedConcat(done, mine, conn.accepts);
      assert mine[..|mine|] == mine;
      done := done + mine;
      j := j + 1;
    }
    LoadsComplete(files, tables, done, conn.accepts);
    return Loaded;
  }

  /** The schema drops every table, in table order, before it creates any, and
      then creates every table once, in the same order. */
  lemma SchemaShape()
    ensures |Schema()| == 2 * |Tables|
    ensures forall i :: 0 <= i < |Tables| ==> Schema()[i] == Drop(Tables[i])
    ensures forall i :: |Tables| <= i < 2 * |Tables| ==>
      Schema()[i].Create? && Schema()[i].table == Tables[i - |Tables|]
  {
    assert ComparisonCreates() == [
      ComparisonCreate(TnbcVsNormal), ComparisonCreate(NontnbcVsNormal), ComparisonCreate(Her2VsNormal),
      ComparisonCreate(TnbcVsNontnbc), ComparisonCreate(TnbcVsHer2), ComparisonCreate(NontnbcVsHer2)];
  }

  /** The load phase reports a missing file exactly when some table has none,
      and then it is the first such table. */
  lemma {:induction false} LoadsMissingFirst(files: map<Table, string>, tables: seq<Table>)
    ensures Loads(files, tables).missing.None? <==> forall i :: 0 <= i < |tables| ==> tables[i] in files
    ensures Loads(files, tables).missing.Some? ==>
      exists i :: 0 <= i < |tables| && tables[i] == Loads(files, tables).missing.value
        && tables[i] !in files && forall j :: 0 <= j < i ==> tables[j] in files
  {
    if tables != [] && tables[0] in files {
      LoadsMissingFirst(files, tables[1..]);
      var m := Loads(files, tables[1..]).missing;
      if m.Some? {
        var i :| 0 <= i < |tables[1..]| && tables[1..][i] == m.value
          && tables[1..][i] !in files && forall j :: 0 <= j < i ==> tables[1..][j] in files;
        assert tables[i + 1] == m.value;
        assert forall j :: 0 <= j < i + 1 ==> tables[j] in files by {
          forall j | 0 <= j < i + 1 ensures tables[j] in files {
            if j > 0 { assert tables[j] == tables[1..][j - 1]; }
          }
        }
      } else {
        forall i | 0 <= i < |tables| ensures tables[i] in files {
          if i > 0 { assert tables[i] == tables[1..][i - 1]; }
        }
      }
    }
  }

  /** The script ends with everything committed exactly when every table has
      its file and the server accepts every statement of the plan. */
  lemma LoadedIff(files: map<Table, string>, accepts: Stmt -> bool)
    ensures ExpectedOutcome(files, accepts) == Loaded <==>
      (forall i :: 0 <= i < |Tables| ==> Tables[i] in files) && AllAccepted(SetupPlan(files).stmts, accepts)
  {
    LoadsMissingFirst(files, Tables);
    NoneRejectedIff(SetupPlan(files).stmts, accepts);
  }

  /** Everything the server was sent it accepted. */
  lemma SentAccepted(files: map<Table, string>, accepts: Stmt -> bool)
    ensures AllAccepted(Sent(SetupPlan(files), accepts), accepts)
  {
    FirstRejectedSpec(SetupPlan(files).stmts, accepts);
  }

  /** A refused statement ends a run: the server refused it, and it is the
      statement of the plan that comes right after all it was sent. */
  lemma PlanRejectedStop(plan: Plan, accepts: Stmt -> bool)
    requires RunOutcome(plan, accepts).Rejected?
    ensures var s := RunOutcome(plan, accepts).stmt;
      && !accepts(s)
      && plan.stmts == Sent(plan, accepts) + [s] + plan.stmts[|Sent(plan, accepts)| + 1..]
  {
    var k := FirstRejected(plan.stmts, accepts);
    FirstRejectedSpec(plan.stmts, accepts);
    assert plan.stmts == plan.stmts[..k] + [plan.stmts[k]] + plan.stmts[k + 1..];
  }

  /** The same for the whole script. */
  lemma RejectedStop(files: map<Table, string>, accepts: Stmt -> bool)
    requires ExpectedOutcome(files, accepts).Rejected?
    ensures var plan := SetupPlan(files); var s := ExpectedOutcome(files, accepts).stmt;
      && !accepts(s)
      && plan.stmts == Sent(plan, accepts) + [s] + plan.stmts[|Sent(plan, accepts)| + 1..]
  {
    PlanRejectedStop(SetupPlan(files), accepts);
  }

  /** A missing file ends the run after every statement of the plan was sent:
      the table reported has no file. */
  lemma MissingStop(files: map<Table, string>, accepts: Stmt -> bool)
    requires ExpectedOutcome(files, accepts).MissingFile?
    ensures ExpectedOutcome(files, accepts).table !in files
    ensures Sent(SetupPlan(files), accepts) == SetupPlan(files).stmts
  {
    LoadsMissingFirst(files, Tables);
    var stmts := SetupPlan(files).stmts;
    assert stmts[..|stmts|] == stmts;
  }

  /** A file written by csv_to_mysql loads as one statement per data line, in
      order, when no value holds a semicolon: that line's INSERT with its empty
      literals replaced by NULL. */
  lemma GeneratedFileStatements(table: string, header: string, rows: seq<string>, d: char)
    requires ';' !in table && ';' !in header
    requires forall i :: 0 <= i < |rows| ==> ';' !in Strip(rows[i])
    ensures FileStatements(SqlText(table, header, rows, d)) ==
      MapSeq(LoadedStatements(table, header, rows, d), ToExec)
    ensures |FileStatements(SqlText(table, header, rows, d))| == |rows|
  {
    FileStatementsPieces(SqlText(table, header, rows, d));
    GeneratedBlobPieces(table, header, rows, d);
  }
}
